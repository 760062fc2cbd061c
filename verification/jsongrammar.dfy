/** What `json.loads` accepts, and as what. */
module JsonReading {
  import opened Common
  import opened Json
  import opened JsonGrammar

  ghost predicate Spells(s: string, d: Doc, post: string) { DocOk(d) && Blank(post) && s == DocText(d) + post }

  /** `json.loads` reads a text exactly if it is a well-formed document with white space around it, and reads it as that
      document's value. */
  lemma LoadsExactly(s: string, v: Json)
    ensures Loads(s) == Some(v) <==> exists d, post :: Spells(s, d, post) && DocValue(d) == v
  {
    hide ParseValue, DocOk, DocValue, DocText;
    if Loads(s) == Some(v) {
      var d := ValueSound(s);
      var rest := ParseValue(s).value.1;
      var post := SkipSplit(rest);
      assert post == rest;
      assert Spells(s, d, post);
    }
    if d, post :| Spells(s, d, post) && DocValue(d) == v {
      BlankDelimits(post);
      ValueComplete(d, post);
    }
  }

  lemma BlankDelimits(post: string)
    requires Blank(post)
    ensures Delimited(post) && SkipWs(post) == []
  {
    SkipBlank(post, "");
    assert post + "" == post;
    if post != [] { assert White(post[0]); }
  }

  /** A repeated key keeps its place and takes its last value. */
  lemma {:induction false} DictLastWins(d: seq<Field>, pairs: seq<Field>, k: string)
    requires DistinctKeys(d)
    ensures DistinctKeys(DictOf(d, pairs))
    ensures HasKey(DictOf(d, pairs), k) <==> HasKey(d, k) || HasKey(pairs, k)
    ensures forall i | 0 <= i < |pairs| && !HasKey(pairs[i + 1..], pairs[i].key) :: pairs[i] in DictOf(d, pairs)
    ensures forall f | f in d && !HasKey(pairs, f.key) :: f in DictOf(d, pairs)
    ensures |d| <= |DictOf(d, pairs)| && forall i | 0 <= i < |d| :: DictOf(d, pairs)[i].key == d[i].key
    decreases pairs
  {
    if pairs != [] {
      var d1, rest := Put(d, pairs[0], FieldKey), pairs[1..];
      PutMembers(d, pairs[0]);
      PutPlaces(d, pairs[0]);
      KeyInPut(d, pairs[0], k);
      KeyInCons(pairs, k);
      hide DistinctKeys, Put;
      DictLastWins(d1, rest, k);
      assert pairs == [pairs[0]] + rest;
      assert forall i | 0 <= i < |rest| :: rest[i] == pairs[i + 1] && rest[i + 1..] == pairs[i + 2..];
      forall f | f in d && !HasKey(pairs, f.key) ensures f in DictOf(d1, rest) { KeyInCons(pairs, f.key); }
    }
  }
}

/** JSON as a grammar (RFC 8259, with integers for numbers): its documents, their text and their values, and that the
    parser reads every document and nothing else. */
module JsonGrammar {
  import opened Common
  import opened Json

  // ---- documents -----------------------------------------------------------------------

  /** One character of a string: as itself, by a short escape, by its code, or by the codes of a surrogate pair. */
  datatype Unit = Raw(c: char) | Short(letter: char) | Code(hex: string) | Pair(high: string, low: string)

  /** A value as it is written, with the white space before it. */
  datatype Doc =
    | Word(ws: string, word: string)
    | Number(ws: string, negative: bool, digits: string)
    | Quotation(ws: string, units: seq<Unit>)
    | Array(ws: string, blank: string, items: seq<Item>)
    | Object(ws: string, blank: string, members: seq<Member>)

  /** An array's item, with the white space after it. */
  datatype Item = Item(doc: Doc, post: string)

  /** An object's member: white space before the key, and after the key, and after the value. */
  datatype Member = Member(pre: string, key: seq<Unit>, mid: string, doc: Doc, post: string)

  predicate White(c: char) { c == ' ' || c == '\t' || c == '\n' || c == '\r' }

  predicate Blank(s: string) { forall i | 0 <= i < |s| :: White(s[i]) }

  // ---- their text ----------------------------------------------------------------------

  function UnitText(u: Unit): string {
    match u
    case Raw(c) => [c]
    case Short(letter) => ['\\', letter]
    case Code(hex) => "\\u" + hex
    case Pair(high, low) => "\\u" + high + ("\\u" + low)
  }

  function UnitsText(us: seq<Unit>): string {
    if us == [] then "" else UnitText(us[0]) + UnitsText(us[1..])
  }

  function DocText(d: Doc): string
    decreases d, 1
  {
    d.ws + Core(d)
  }

  function Core(d: Doc): string
    decreases d, 0
  {
    match d
    case Word(_, word) => word
    case Number(_, negative, digits) => if negative then "-" + digits else digits
    case Quotation(_, units) => "\"" + (UnitsText(units) + "\"")
    case Array(_, blank, items) => "[" + (blank + if items == [] then "]" else ItemsText(items))
    case Object(_, blank, members) => "{" + (blank + if members == [] then "}" else MembersText(members))
  }

  /** The items, with commas between them and the closing bracket. */
  function ItemsText(items: seq<Item>): string
    requires items != []
    decreases items
  {
    DocText(items[0].doc) + (items[0].post + if |items| == 1 then "]" else "," + ItemsText(items[1..]))
  }

  function KeyText(m: Member): string { m.pre + ("\"" + (UnitsText(m.key) + "\"" + (m.mid + ":"))) }

  function MembersText(ms: seq<Member>): string
    requires ms != []
    decreases ms
  {
    KeyText(ms[0]) + (DocText(ms[0].doc) + (ms[0].post + if |ms| == 1 then "}" else "," + MembersText(ms[1..])))
  }

  // ---- which are well formed -------------------------------------------------------------

  predicate IsHex(c: char) { '0' <= c <= '9' || 'a' <= c <= 'f' || 'A' <= c <= 'F' }

  function HexOf(c: char): (n: int)
    requires IsHex(c)
    ensures 0 <= n < 0x10
  {
    c as int - if c <= '9' then '0' as int else if c <= 'F' then 'A' as int - 10 else 'a' as int - 10
  }

  predicate HexFour(h: string) { |h| == 4 && forall i | 0 <= i < 4 :: IsHex(h[i]) }

  function HexCode(h: string): (n: int)
    requires HexFour(h)
    ensures 0 <= n < 0x1_0000
  {
    HexOf(h[0]) * 0x1000 + HexOf(h[1]) * 0x100 + HexOf(h[2]) * 0x10 + HexOf(h[3])
  }

  /** No control character, quote or backslash as itself; eight letters; no surrogate but in a pair. */
  predicate UnitOk(u: Unit) {
    match u
    case Raw(c) => c >= ' ' && c != '"' && c != '\\'
    case Short(letter) => letter in ['"', '\\', '/', 'b', 'f', 'n', 'r', 't']
    case Code(h) => HexFour(h) && !(0xD800 <= HexCode(h) < 0xE000)
    case Pair(h, l) =>
      HexFour(h) && HexFour(l) && 0xD800 <= HexCode(h) < 0xDC00 && 0xDC00 <= HexCode(l) < 0xE000
  }

  predicate UnitsOk(us: seq<Unit>) { forall i | 0 <= i < |us| :: UnitOk(us[i]) }

  predicate AllDigits(ds: string) { forall i | 0 <= i < |ds| :: '0' <= ds[i] <= '9' }

  /** At least one digit, and no zero in front of others. */
  predicate DigitsOk(ds: string) { ds != "" && AllDigits(ds) && (|ds| > 1 ==> ds[0] != '0') }

  predicate DocOk(d: Doc)
    decreases d
  {
    && Blank(d.ws)
    && match d
       case Word(_, word) => word in ["null", "true", "false"]
       case Number(_, _, digits) => DigitsOk(digits)
       case Quotation(_, units) => UnitsOk(units)
       case Array(_, blank, items) => Blank(blank) && ItemsOk(items)
       case Object(_, blank, members) => Blank(blank) && MembersOk(members)
  }

  predicate ItemsOk(items: seq<Item>)
    decreases items
  {
    items == [] || (DocOk(items[0].doc) && Blank(items[0].post) && ItemsOk(items[1..]))
  }

  predicate MembersOk(ms: seq<Member>)
    decreases ms
  {
    ms == [] || (&& Blank(ms[0].pre) && UnitsOk(ms[0].key) && Blank(ms[0].mid) && DocOk(ms[0].doc) && Blank(ms[0].post)
                 && MembersOk(ms[1..]))
  }

  // ---- and what they mean ------------------------------------------------------------------

  function UnitValue(u: Unit): char
    requires UnitOk(u)
  {
    match u
    case Raw(c) => c
    case Short(letter) =>
      (match letter
       case 'b' => 8 as char
       case 'f' => 12 as char
       case 'n' => '\n'
       case 'r' => '\r'
       case 't' => '\t'
       case _ => letter)
    case Code(h) => HexCode(h) as char
    case Pair(h, l) => (0x1_0000 + (HexCode(h) - 0xD800) * 0x400 + (HexCode(l) - 0xDC00)) as char
  }

  function UnitsValue(us: seq<Unit>): string
    requires UnitsOk(us)
  {
    if us == [] then "" else [UnitValue(us[0])] + UnitsValue(us[1..])
  }

  function DigitsValue(ds: string): nat
    requires AllDigits(ds)
  {
    if ds == "" then 0 else DigitsValue(ds[..|ds| - 1]) * 10 + (ds[|ds| - 1] as int - '0' as int)
  }

  function DocValue(d: Doc): Json
    requires DocOk(d)
    decreases d
  {
    match d
    case Word(_, word) => if word == "null" then Null else Bool(word == "true")
    case Number(_, negative, digits) => Num(if negative then 0 - DigitsValue(digits) else DigitsValue(digits))
    case Quotation(_, units) => Str(UnitsValue(units))
    case Array(_, _, items) => Arr(ItemsValue(items))
    case Object(_, _, members) => Obj(DictOf([], MembersValue(members)))
  }

  function ItemsValue(items: seq<Item>): seq<Json>
    requires ItemsOk(items)
    decreases items
  {
    if items == [] then [] else [DocValue(items[0].doc)] + ItemsValue(items[1..])
  }

  function MembersValue(ms: seq<Member>): seq<Field>
    requires MembersOk(ms)
    decreases ms
  {
    if ms == [] then [] else [Field(UnitsValue(ms[0].key), DocValue(ms[0].doc))] + MembersValue(ms[1..])
  }

  lemma DistinctTail(d: seq<Field>)
    requires d != [] && DistinctKeys(d)
    ensures DistinctKeys(d[1..]) && forall x | x in d[1..] :: x.key != d[0].key
  {
    var t := d[1..];
    assert forall i | 0 <= i < |t| :: t[i] == d[i + 1];
    forall x | x in t ensures x.key != d[0].key { var i :| 0 <= i < |t| && t[i] == x; }
  }

  lemma ConsDistinct(f: Field, fields: seq<Field>)
    requires DistinctKeys(fields) && forall x | x in fields :: x.key != f.key
    ensures DistinctKeys([f] + fields)
  {
    forall j | 0 <= j < |fields| ensures fields[j].key != f.key { assert fields[j] in fields; }
  }

  lemma {:induction false} PutMembers(d: seq<Field>, f: Field)
    requires DistinctKeys(d)
    ensures DistinctKeys(Put(d, f, FieldKey))
    ensures forall x :: x in Put(d, f, FieldKey) <==> x == f || (x in d && x.key != f.key)
  {
    if d == [] {
      assert Put(d, f, FieldKey) == [f];
    } else {
      var t := d[1..];
      DistinctTail(d);
      assert d == [d[0]] + t;
      hide DistinctKeys;
      if d[0].key == f.key {
        ConsDistinct(f, t);
      } else {
        PutMembers(t, f);
        ConsDistinct(d[0], Put(t, f, FieldKey));
      }
    }
  }

  lemma {:induction false} PutPlaces(d: seq<Field>, f: Field)
    ensures (var e := Put(d, f, FieldKey); |d| <= |e| && forall i | 0 <= i < |d| :: e[i].key == d[i].key)
  {
    if d != [] && d[0].key != f.key {
      PutPlaces(d[1..], f);
      assert forall i | 1 <= i < |d| :: d[i] == d[1..][i - 1];
    }
  }

  lemma KeyInPut(d: seq<Field>, f: Field, k: string)
    requires DistinctKeys(d)
    ensures HasKey(Put(d, f, FieldKey), k) <==> k == f.key || HasKey(d, k)
  {
    PutMembers(d, f);
    var e := Put(d, f, FieldKey);
    if i :| 0 <= i < |e| && e[i].key == k { assert e[i] in e; }
    if k == f.key { assert f in e; }
    if i :| 0 <= i < |d| && d[i].key == k { assert d[i] in d && (d[i] in e || k == f.key); }
  }

  lemma KeyInCons(fields: seq<Field>, k: string)
    requires fields != []
    ensures HasKey(fields, k) <==> fields[0].key == k || HasKey(fields[1..], k)
  {
    if i :| 0 <= i < |fields| && fields[i].key == k { if i > 0 { assert fields[1..][i - 1].key == k; } }
    if i :| 0 <= i < |fields[1..]| && fields[1..][i].key == k { assert fields[i + 1].key == k; }
  }

  // ---- what is read is a document -----------------------------------------------------------

  lemma BlankCons(c: char, ws: string)
    requires White(c) && Blank(ws)
    ensures Blank([c] + ws)
  {}

  lemma {:induction false} SkipSplit(s: string) returns (ws: string)
    ensures Blank(ws) && s == ws + SkipWs(s) && (SkipWs(s) == [] || !IsWs(SkipWs(s)[0]))
  {
    if s != [] && IsWs(s[0]) {
      var rest := SkipSplit(s[1..]);
      ws := [s[0]] + rest;
      BlankCons(s[0], rest);
      hide Blank;
      assert s == [s[0]] + s[1..];
      Assoc([s[0]], rest, SkipWs(s[1..]));
    } else {
      ws := [];
      assert s == [] + s;
    }
  }

  lemma HexAgrees(c: char)
    ensures HexValue(c) == if IsHex(c) then Some(HexOf(c)) else None
  {}

  lemma CodeRead(s: string)
    requires UnicodeEscape(s).Some?
    ensures HexFour(s[2..6]) && HexCode(s[2..6]) == UnicodeEscape(s).value
    ensures s[0] == '\\' && s[1] == 'u' && s[..6] == "\\u" + s[2..6]
  {
    HexAgrees(s[2]);
    HexAgrees(s[3]);
    HexAgrees(s[4]);
    HexAgrees(s[5]);
    hide HexValue, IsHex, HexOf;
    var h := s[2..6];
    assert h[0] == s[2] && h[1] == s[3] && h[2] == s[4] && h[3] == s[5];
    assert s[..6] == [s[0], s[1]] + h;
  }

  lemma CharSound(s: string) returns (u: Unit)
    requires s != [] && s[0] != '"' && ParseChar(s).Some?
    ensures UnitOk(u) && UnitValue(u) == ParseChar(s).value.0 && UnitText(u) == s[..ParseChar(s).value.1]
  {
    if s[0] != '\\' {
      u := Raw(s[0]);
    } else if NamedChar(s[1]).Some? {
      u := Short(s[1]);
    } else {
      CodeRead(s);
      if 0xD800 <= UnicodeEscape(s).value < 0xDC00 {
        var t := s[6..];
        CodeRead(t);
        u := Pair(s[2..6], t[2..6]);
        assert s[..12] == s[..6] + t[..6];
      } else {
        u := Code(s[2..6]);
      }
    }
  }

  lemma MoreUnits(u: Unit, us: seq<Unit>)
    requires UnitOk(u) && UnitsOk(us)
    ensures UnitsOk([u] + us) && UnitsValue([u] + us) == [UnitValue(u)] + UnitsValue(us)
    ensures UnitsText([u] + us) == UnitText(u) + UnitsText(us)
  {
    hide UnitOk, UnitValue, UnitText;
    assert ([u] + us)[1..] == us;
  }

  lemma NoUnits()
    ensures UnitsOk([]) && UnitsValue([]) == "" && UnitsText([]) == ""
  {}

  lemma {:induction false} StringSound(s: string) returns (us: seq<Unit>)
    requires ParseString(s).Some?
    ensures UnitsOk(us) && UnitsValue(us) == ParseString(s).value.0
    ensures s == UnitsText(us) + "\"" + ParseString(s).value.1
    decreases |s|
  {
    hide ParseChar, UnitOk, UnitValue, UnitText, UnitsOk, UnitsValue, UnitsText;
    if s[0] == '"' {
      us := [];
      NoUnits();
      assert s == "" + "\"" + s[1..];
    } else {
      var u := CharSound(s);
      var (c, k) := ParseChar(s).value;
      var more := StringSound(s[k..]);
      us := [u] + more;
      MoreUnits(u, more);
      var t := ParseString(s[k..]).value.1;
      hide ParseString;
      Taken(s, k, UnitText(u), UnitsText(more), t);
    }
  }

  lemma Taken(s: string, k: nat, a: string, b: string, t: string)
    requires k <= |s| && a == s[..k] && s[k..] == b + "\"" + t
    ensures s == a + b + "\"" + t
  {
    assert s == s[..k] + s[k..];
  }

  /** One digit more. */
  lemma DigitsSnoc(ds: string, c: char)
    requires AllDigits(ds) && '0' <= c <= '9'
    ensures AllDigits(ds + [c]) && DigitsValue(ds + [c]) == DigitsValue(ds) * 10 + (c as int - '0' as int)
  {
    assert (ds + [c])[..|ds|] == ds;
  }

  lemma DigitsCons(c: char, ds: string)
    requires AllDigits(ds) && '0' <= c <= '9'
    ensures AllDigits([c] + ds)
  {}

  lemma {:induction false} NatSound(s: string, pre: string) returns (ds: string)
    requires AllDigits(pre)
    ensures AllDigits(ds) && AllDigits(pre + ds) && s == ds + ParseNat(s, DigitsValue(pre)).1
    ensures ParseNat(s, DigitsValue(pre)).0 == DigitsValue(pre + ds)
    decreases |s|
  {
    hide DigitsValue;
    if s != [] && IsDigit(s[0]) {
      var c := [s[0]];
      DigitsSnoc(pre, s[0]);
      var more := NatSound(s[1..], pre + c);
      DigitsCons(s[0], more);
      hide AllDigits;
      ds := c + more;
      Assoc(pre, c, more);
      assert s == c + s[1..];
      Assoc(c, more, ParseNat(s[1..], DigitsValue(pre + c)).1);
    } else {
      ds := "";
      assert pre + "" == pre && s == "" + s;
    }
  }

  lemma OneDigit(c: char)
    requires '0' <= c <= '9'
    ensures DigitsValue([c]) == c as int - '0' as int
  {
    assert [c][..0] == "" && DigitsValue("") == 0;
  }

  lemma UnsignedSound(s: string) returns (ds: string)
    requires ParseUnsigned(s).Some?
    ensures DigitsOk(ds) && DigitsValue(ds) == ParseUnsigned(s).value.0 && s == ds + ParseUnsigned(s).value.1
  {
    OneDigit(s[0]);
    hide DigitsValue, ParseNat;
    var first := [s[0]];
    assert s == first + s[1..];
    if s[0] == '0' {
      ds := first;
    } else {
      var more := NatSound(s[1..], first);
      ds := first + more;
      DigitsCons(s[0], more);
      Assoc(first, more, ParseNat(s[1..], DigitsValue(first)).1);
    }
  }

  /** What precedes the first character that counts, and what `ParseValue` made of it. */
  lemma Framed(ws: string, core: string, rest: string, s: string, s0: string)
    requires s0 == ws + s && s == core + rest
    ensures s0 == ws + core + rest
  {}

  lemma {:induction false} ValueSound(s0: string) returns (d: Doc)
    requires ParseValue(s0).Some?
    ensures DocOk(d) && DocValue(d) == ParseValue(s0).value.0 && s0 == DocText(d) + ParseValue(s0).value.1
    decreases |s0|, 1
  {
    var ws := SkipSplit(s0);
    var s := SkipWs(s0);
    SkipTwice(s0);
    if s[0] == '[' {
      d := ArraySound(ws, s);
    } else if s[0] == '{' {
      d := ObjectSound(ws, s);
    } else {
      d := FlatSound(ws, s);
    }
    hide ParseValue, DocOk, DocValue, Core;
    Framed(ws, Core(d), ParseValue(s0).value.1, s, s0);
  }

  lemma SkipTwice(s: string)
    ensures SkipWs(SkipWs(s)) == SkipWs(s) && ParseValue(SkipWs(s)) == ParseValue(s)
  {
    var ws := SkipSplit(s);
    hide ParseItems, ParseFields, ParseString, ParseUnsigned;
  }

  lemma FlatSound(ws: string, s: string) returns (d: Doc)
    requires Blank(ws) && s != [] && SkipWs(s) == s && s[0] != '[' && s[0] != '{' && ParseValue(s).Some?
    ensures d.ws == ws && DocOk(d) && DocValue(d) == ParseValue(s).value.0 && s == Core(d) + ParseValue(s).value.1
  {
    hide ParseString, ParseUnsigned, DigitsOk, DigitsValue, UnitsOk, UnitsValue, UnitsText;
    var rest := ParseValue(s).value.1;
    if s[0] == '"' {
      var us := StringSound(s[1..]);
      d := Quotation(ws, us);
      assert s == "\"" + s[1..];
    } else if s[0] == '-' {
      var ds := UnsignedSound(s[1..]);
      d := Number(ws, true, ds);
      assert s == "-" + s[1..];
    } else if IsDigit(s[0]) {
      var ds := UnsignedSound(s);
      d := Number(ws, false, ds);
    } else {
      d := Word(ws, if "null" <= s then "null" else if "true" <= s then "true" else "false");
    }
  }

  lemma ArraySound(ws: string, s: string) returns (d: Doc)
    requires Blank(ws) && s != [] && SkipWs(s) == s && s[0] == '[' && ParseValue(s).Some?
    ensures d.ws == ws && DocOk(d) && DocValue(d) == ParseValue(s).value.0 && s == Core(d) + ParseValue(s).value.1
    decreases |s|, 0
  {
    hide ParseFields, ParseItems, ParseString, ParseUnsigned, DictOf, ItemsText, MembersText, UnitsText, Blank;
    var blank := SkipSplit(s[1..]);
    var u, rest := SkipWs(s[1..]), ParseValue(s).value.1;
    assert s == "[" + s[1..];
    if u != [] && u[0] == ']' {
      d := Array(ws, blank, []);
      NoPairs();
      assert u == "]" + rest;
      hide ParseValue;
      Nested("[", blank, "]", rest);
    } else {
      var items := ItemsSound(u);
      d := Array(ws, blank, items);
      Nested("[", blank, ItemsText(items), rest);
    }
  }

  lemma ObjectSound(ws: string, s: string) returns (d: Doc)
    requires Blank(ws) && s != [] && SkipWs(s) == s && s[0] == '{' && ParseValue(s).Some?
    ensures d.ws == ws && DocOk(d) && DocValue(d) == ParseValue(s).value.0 && s == Core(d) + ParseValue(s).value.1
    decreases |s|, 0
  {
    hide ParseFields, ParseItems, ParseString, ParseUnsigned, DictOf, ItemsText, MembersText, UnitsText, Blank;
    var blank := SkipSplit(s[1..]);
    var u, rest := SkipWs(s[1..]), ParseValue(s).value.1;
    assert s == "{" + s[1..];
    if u != [] && u[0] == '}' {
      d := Object(ws, blank, []);
      NoPairs();
      assert u == "}" + rest;
      hide ParseValue;
      Nested("{", blank, "}", rest);
    } else {
      var members := MembersSound(u);
      d := Object(ws, blank, members);
      Nested("{", blank, MembersText(members), rest);
    }
  }

  lemma NoPairs()
    ensures DictOf([], []) == [] && MembersOk([]) && MembersValue([]) == [] && ItemsOk([]) && ItemsValue([]) == []
  {}

  lemma {:induction false} ItemsSound(s: string) returns (items: seq<Item>)
    requires ParseItems(s).Some?
    ensures items != [] && ItemsOk(items) && ItemsValue(items) == ParseItems(s).value.0
    ensures s == ItemsText(items) + ParseItems(s).value.1
    decreases |s|, 2
  {
    hide ParseValue, DocOk, DocValue, DocText;
    var d := ValueSound(s);
    var r1, rest := ParseValue(s).value.1, ParseItems(s).value.1;
    var post := SkipSplit(r1);
    var u := SkipWs(r1);
    assert u == [u[0]] + u[1..];
    if u[0] == ']' {
      items := [Item(d, post)];
      assert items[1..] == [];
      assert s == DocText(d) + (post + ("]" + rest));
      Nested(DocText(d), post, "]", rest);
    } else {
      var more := ItemsSound(u[1..]);
      items := [Item(d, post)] + more;
      assert items[1..] == more;
      assert s == DocText(d) + (post + ("," + (ItemsText(more) + rest)));
      Nested(DocText(d), post, "," + ItemsText(more), rest);
      Assoc(",", ItemsText(more), rest);
    }
  }

  lemma Nested(a: string, b: string, c: string, rest: string)
    ensures a + (b + c) + rest == a + (b + (c + rest))
  {
    Assoc(a, b + c, rest);
    Assoc(b, c, rest);
  }

  lemma {:induction false} MembersSound(s: string) returns (ms: seq<Member>)
    requires ParseFields(s).Some?
    ensures ms != [] && MembersOk(ms) && MembersValue(ms) == ParseFields(s).value.0
    ensures s == MembersText(ms) + ParseFields(s).value.1
    decreases |s|, 2
  {
    hide ParseValue, ParseKey, DocOk, DocValue, DocText, KeyText, UnitsOk, UnitsValue;
    var pre, key, mid := KeySound(s);
    var (k, r0) := ParseKey(s).value;
    var d := ValueSound(r0);
    var r1, rest := ParseValue(r0).value.1, ParseFields(s).value.1;
    var post := SkipSplit(r1);
    var u := SkipWs(r1);
    var m := Member(pre, key, mid, d, post);
    assert u == [u[0]] + u[1..];
    if u[0] == '}' {
      ms := [m];
      assert ms[1..] == [];
      assert r0 == DocText(d) + (post + ("}" + rest));
      Nested(DocText(d), post, "}", rest);
      Assoc(KeyText(m), DocText(d) + (post + "}"), rest);
    } else {
      var more := MembersSound(u[1..]);
      ms := [m] + more;
      assert ms[1..] == more;
      assert r0 == DocText(d) + (post + ("," + (MembersText(more) + rest)));
      Assoc(",", MembersText(more), rest);
      Nested(DocText(d), post, "," + MembersText(more), rest);
      Assoc(KeyText(m), DocText(d) + (post + ("," + MembersText(more))), rest);
    }
  }

  lemma KeySound(s: string) returns (pre: string, key: seq<Unit>, mid: string)
    requires ParseKey(s).Some?
    ensures Blank(pre) && UnitsOk(key) && Blank(mid) && UnitsValue(key) == ParseKey(s).value.0
    ensures forall d, post :: s == KeyText(Member(pre, key, mid, d, post)) + ParseKey(s).value.1
  {
    hide ParseString, UnitsOk, UnitsValue, UnitsText, Blank;
    pre := SkipSplit(s);
    var t, rest := SkipWs(s), ParseKey(s).value.1;
    key := StringSound(t[1..]);
    var r1 := ParseString(t[1..]).value.1;
    mid := SkipSplit(r1);
    hide SkipWs, ParseKey;
    KeyJoins(pre, UnitsText(key) + "\"", mid, rest, t, r1);
  }

  lemma KeyJoins(pre: string, q: string, mid: string, rest: string, t: string, r1: string)
    requires t != [] && t[0] == '"' && t[1..] == q + r1 && r1 == mid + ([':'] + rest)
    ensures pre + t == pre + ("\"" + (q + (mid + ":"))) + rest
  {
    assert t == "\"" + t[1..];
    Nested(q, mid, ":", rest);
    Assoc("\"", q + (mid + ":"), rest);
    Assoc(pre, "\"" + (q + (mid + ":")), rest);
  }

  // ---- every document is read -----------------------------------------------------------------

  lemma {:induction false} SkipBlank(ws: string, t: string)
    requires Blank(ws) && (t == [] || !IsWs(t[0]))
    ensures SkipWs(ws + t) == t
  {
    if ws == [] {
      assert ws + t == t;
    } else {
      assert (ws + t)[1..] == ws[1..] + t && IsWs((ws + t)[0]);
      SkipBlank(ws[1..], t);
    }
  }

  lemma CodeComplete(hex: string, rest: string)
    requires HexFour(hex)
    ensures UnicodeEscape("\\u" + hex + rest) == Some(HexCode(hex))
    ensures |"\\u" + hex| == 6 && ("\\u" + hex + rest)[6..] == rest
  {
    HexAgrees(hex[0]);
    HexAgrees(hex[1]);
    HexAgrees(hex[2]);
    HexAgrees(hex[3]);
    hide HexValue, IsHex, HexOf;
    var s := "\\u" + hex + rest;
    assert s[0] == '\\' && s[1] == 'u' && s[2] == hex[0] && s[3] == hex[1] && s[4] == hex[2] && s[5] == hex[3];
  }

  lemma CharComplete(u: Unit, rest: string)
    requires UnitOk(u)
    ensures UnitText(u) != [] && UnitText(u)[0] != '"'
    ensures ParseChar(UnitText(u) + rest) == Some((UnitValue(u), |UnitText(u)|))
  {
    var s := UnitText(u) + rest;
    assert s[0] == UnitText(u)[0] && |s| == |UnitText(u)| + |rest|;
    match u
    case Raw(c) =>
    case Short(letter) => assert s[1] == letter;
    case Code(hex) =>
      CodeComplete(hex, rest);
      assert s[1] == 'u';
    case Pair(high, low) =>
      assert s == "\\u" + high + ("\\u" + low + rest);
      CodeComplete(high, "\\u" + low + rest);
      CodeComplete(low, rest);
      assert s[1] == 'u';
  }

  lemma {:induction false} StringComplete(us: seq<Unit>, rest: string)
    requires UnitsOk(us)
    ensures ParseString(UnitsText(us) + "\"" + rest) == Some((UnitsValue(us), rest))
  {
    var s := UnitsText(us) + "\"" + rest;
    if us == [] {
      assert s[1..] == rest;
    } else {
      var t, more := UnitText(us[0]), UnitsText(us[1..]) + "\"" + rest;
      Assoc(t, UnitsText(us[1..]), "\"");
      Assoc(t, UnitsText(us[1..]) + "\"", rest);
      assert s == t + more;
      CharComplete(us[0], more);
      StringComplete(us[1..], rest);
      hide ParseChar, UnitText, UnitOk, UnitValue;
      assert s[0] == t[0] && s[|t|..] == more;
    }
  }

  lemma {:induction false} NatComplete(ds: string, pre: string, rest: string)
    requires AllDigits(pre) && AllDigits(ds) && (rest == [] || !IsDigit(rest[0]))
    ensures AllDigits(pre + ds) && ParseNat(ds + rest, DigitsValue(pre)) == (DigitsValue(pre + ds), rest)
    decreases |ds|
  {
    hide DigitsValue;
    if ds == "" {
      assert ds + rest == rest && pre + ds == pre;
    } else {
      var c, more := [ds[0]], ds[1..];
      assert ds == c + more;
      DigitsSnoc(pre, ds[0]);
      NatComplete(more, pre + c, rest);
      hide AllDigits;
      Assoc(pre, c, more);
      Assoc(c, more, rest);
      assert (ds + rest)[0] == ds[0] && (ds + rest)[1..] == more + rest;
    }
  }

  lemma UnsignedComplete(ds: string, rest: string)
    requires DigitsOk(ds) && Delimited(rest)
    ensures ParseUnsigned(ds + rest) == Some((DigitsValue(ds), rest))
  {
    var s := ds + rest;
    assert s[0] == ds[0] && s[1..] == ds[1..] + rest;
    OneDigit(ds[0]);
    hide DigitsValue;
    assert ds == [ds[0]] + ds[1..];
    if ds[0] == '0' {
      assert ds == [ds[0]];
    } else {
      NatComplete(ds[1..], [ds[0]], rest);
    }
  }

  lemma CoreStart(d: Doc)
    requires DocOk(d)
    ensures Core(d) != [] && !IsWs(Core(d)[0]) && Core(d)[0] != ']' && Core(d)[0] != '}'
  {
    hide UnitsText, ItemsText, MembersText, UnitsOk;
    match d
    case Word(_, word) => assert word[0] in ['n', 't', 'f'];
    case _ =>
  }

  lemma {:induction false} ValueComplete(d: Doc, rest: string)
    requires DocOk(d) && Delimited(rest)
    ensures ParseValue(DocText(d) + rest) == Some((DocValue(d), rest))
    decreases d, 1
  {
    var s := Core(d) + rest;
    CoreStart(d);
    Assoc(d.ws, Core(d), rest);
    SkipBlank(d.ws, s);
    match d {
      case Array(_, _, _) => ArrayComplete(d, rest);
      case Object(_, _, _) => ObjectComplete(d, rest);
      case _ => FlatComplete(d, rest);
    }
    hide ParseValue, Core, DocOk, DocValue;
    SkipTwiceAt(DocText(d) + rest, s);
  }

  lemma SkipTwiceAt(s0: string, s: string)
    requires SkipWs(s0) == s
    ensures ParseValue(s0) == ParseValue(s)
  {
    SkipTwice(s0);
  }

  lemma FlatComplete(d: Doc, rest: string)
    requires DocOk(d) && Delimited(rest) && !d.Array? && !d.Object?
    ensures ParseValue(Core(d) + rest) == Some((DocValue(d), rest))
  {
    hide ParseString, ParseUnsigned, ParseItems, ParseFields, UnitsText, UnitsOk, UnitsValue, DigitsValue;
    CoreStart(d);
    var s := Core(d) + rest;
    assert s[0] == Core(d)[0] && SkipWs(s) == s;
    match d {
      case Word(_, word) => WordComplete(word, rest);
      case Number(_, negative, digits) =>
        UnsignedComplete(digits, rest);
        if negative { assert s[1..] == digits + rest; }
      case Quotation(_, units) =>
        StringComplete(units, rest);
        assert s[1..] == UnitsText(units) + "\"" + rest;
    }
  }

  lemma WordComplete(word: string, rest: string)
    requires word in ["null", "true", "false"]
    ensures ParseValue(word + rest) == Some((if word == "null" then Null else Bool(word == "true"), rest))
  {
    hide ParseString, ParseUnsigned, ParseItems, ParseFields;
    var s := word + rest;
    assert s[0] == word[0] && SkipWs(s) == s && s[|word|..] == rest && word <= s;
    if word == "null" {
    } else if word == "true" {
      assert !("null" <= s);
    } else {
      assert !("null" <= s) && !("true" <= s);
    }
  }

  lemma {:induction false} SkipBlanks(ws: string, t: string)
    requires Blank(ws)
    ensures SkipWs(ws + t) == SkipWs(t)
  {
    if ws == [] {
      assert ws + t == t;
    } else {
      assert (ws + t)[1..] == ws[1..] + t && IsWs((ws + t)[0]);
      SkipBlanks(ws[1..], t);
    }
  }

  /** Leading white space makes no difference to any of the parsers. */
  lemma ListsSkip(s: string)
    ensures ParseItems(SkipWs(s)) == ParseItems(s) && ParseKey(SkipWs(s)) == ParseKey(s)
    ensures ParseFields(SkipWs(s)) == ParseFields(s)
  {
    SkipTwice(s);
    hide ParseValue, ParseString;
  }

  lemma ArrayComplete(d: Doc, rest: string)
    requires DocOk(d) && d.Array?
    ensures ParseValue(Core(d) + rest) == Some((DocValue(d), rest))
    decreases d, 0
  {
    hide ParseItems, ParseFields, ParseString, ParseUnsigned, ItemsText;
    var body := if d.items == [] then "]" else ItemsText(d.items);
    var s, tail := Core(d) + rest, body + rest;
    CoreOf(d);
    Nested("[", d.blank, body, rest);
    assert s[0] == '[' && SkipWs(s) == s && s[1..] == d.blank + tail;
    SkipBlanks(d.blank, tail);
    ListsSkip(tail);
    if d.items == [] {
      assert SkipWs(tail) == tail && tail[0] == ']' && tail[1..] == rest;
    } else {
      ItemsComplete(d.items, rest);
      ItemsStart(d.items, rest);
    }
  }

  lemma ItemsStart(items: seq<Item>, rest: string)
    requires items != [] && ItemsOk(items)
    ensures (var u := SkipWs(ItemsText(items) + rest); u != [] && u[0] != ']')
  {
    var d := items[0].doc;
    CoreStart(d);
    var more := items[0].post + if |items| == 1 then "]" else "," + ItemsText(items[1..]);
    assert ItemsText(items) + rest == d.ws + (Core(d) + (more + rest));
    SkipBlank(d.ws, Core(d) + (more + rest));
  }

  lemma MembersStart(ms: seq<Member>, rest: string)
    requires ms != [] && MembersOk(ms)
    ensures (var u := SkipWs(MembersText(ms) + rest); u != [] && u[0] != '}')
  {
    var m := ms[0];
    var more := DocText(m.doc) + (m.post + if |ms| == 1 then "}" else "," + MembersText(ms[1..]));
    var u := "\"" + (UnitsText(m.key) + "\"" + (m.mid + ":")) + (more + rest);
    hide DocText, UnitsText;
    assert MembersText(ms) + rest == m.pre + u;
    SkipBlank(m.pre, u);
  }

  lemma ObjectComplete(d: Doc, rest: string)
    requires DocOk(d) && d.Object?
    ensures ParseValue(Core(d) + rest) == Some((DocValue(d), rest))
    decreases d, 0
  {
    NoPairs();
    hide ParseItems, ParseFields, ParseString, ParseUnsigned, MembersText, DictOf;
    var body := if d.members == [] then "}" else MembersText(d.members);
    var s, tail := Core(d) + rest, body + rest;
    CoreOf(d);
    Nested("{", d.blank, body, rest);
    assert s[0] == '{' && SkipWs(s) == s && s[1..] == d.blank + tail;
    SkipBlanks(d.blank, tail);
    ListsSkip(tail);
    if d.members == [] {
      assert SkipWs(tail) == tail && tail[0] == '}' && tail[1..] == rest;
    } else {
      MembersComplete(d.members, rest);
      MembersStart(d.members, rest);
    }
  }

  /** After a value come white space and one of the marks, and neither is taken for a digit. */
  lemma AfterValue(post: string, mark: char, rest: string)
    requires Blank(post) && mark in [']', '}', ',']
    ensures Delimited(post + ([mark] + rest)) && SkipWs(post + ([mark] + rest)) == [mark] + rest
    ensures ([mark] + rest)[0] == mark && ([mark] + rest)[1..] == rest
  {
    SkipBlank(post, [mark] + rest);
    if post != [] { assert White(post[0]); }
  }

  lemma {:induction false} ItemsComplete(items: seq<Item>, rest: string)
    requires items != [] && ItemsOk(items)
    ensures ParseItems(ItemsText(items) + rest) == Some((ItemsValue(items), rest))
    decreases items, 2
  {
    hide ParseValue, DocText, DocOk, DocValue;
    var d, post := items[0].doc, items[0].post;
    if |items| == 1 {
      AfterValue(post, ']', rest);
      Nested(DocText(d), post, "]", rest);
      ValueComplete(d, post + ("]" + rest));
      assert items[1..] == [] && ItemsValue(items) == [DocValue(d)];
      assert ItemsText(items) + rest == DocText(d) + (post + ([']'] + rest));
    } else {
      var more := ItemsText(items[1..]);
      AfterValue(post, ',', more + rest);
      Nested(DocText(d), post, "," + more, rest);
      Assoc(",", more, rest);
      ValueComplete(d, post + ("," + (more + rest)));
      ItemsComplete(items[1..], rest);
      assert ItemsText(items) + rest == DocText(d) + (post + ([','] + (more + rest)));
      assert ParseItems(more + rest) == Some((ItemsValue(items[1..]), rest));
    }
  }

  lemma {:induction false} MembersComplete(ms: seq<Member>, rest: string)
    requires ms != [] && MembersOk(ms)
    ensures ParseFields(MembersText(ms) + rest) == Some((MembersValue(ms), rest))
    decreases ms, 2
  {
    hide ParseValue, ParseKey, DocText, DocOk, DocValue, KeyText, UnitsOk, UnitsValue;
    var m := ms[0];
    if |ms| == 1 {
      var body := DocText(m.doc) + (m.post + "}");
      Assoc(KeyText(m), body, rest);
      KeyComplete(m, body + rest);
      AfterValue(m.post, '}', rest);
      Nested(DocText(m.doc), m.post, "}", rest);
      ValueComplete(m.doc, m.post + ("}" + rest));
      assert ms[1..] == [] && MembersValue(ms) == [Field(UnitsValue(m.key), DocValue(m.doc))];
      assert body + rest == DocText(m.doc) + (m.post + (['}'] + rest));
    } else {
      var more := MembersText(ms[1..]);
      var body := DocText(m.doc) + (m.post + ("," + more));
      Assoc(KeyText(m), body, rest);
      KeyComplete(m, body + rest);
      AfterValue(m.post, ',', more + rest);
      Nested(DocText(m.doc), m.post, "," + more, rest);
      Assoc(",", more, rest);
      ValueComplete(m.doc, m.post + ("," + (more + rest)));
      MembersComplete(ms[1..], rest);
      assert body + rest == DocText(m.doc) + (m.post + ([','] + (more + rest)));
    }
  }

  lemma KeyComplete(m: Member, rest: string)
    requires Blank(m.pre) && UnitsOk(m.key) && Blank(m.mid)
    ensures ParseKey(KeyText(m) + rest) == Some((UnitsValue(m.key), rest))
  {
    hide ParseString, UnitsText, UnitsOk, UnitsValue;
    var q := UnitsText(m.key) + "\"";
    var t := "\"" + (q + (m.mid + (":" + rest)));
    assert KeyText(m) + rest == m.pre + t;
    SkipBlank(m.pre, t);
    assert t[1..] == q + (m.mid + (":" + rest));
    StringComplete(m.key, m.mid + (":" + rest));
    SkipBlank(m.mid, ":" + rest);
    assert (":" + rest)[1..] == rest;
  }

  lemma CoreOf(d: Doc)
    ensures d.Array? ==> Core(d) == "[" + (d.blank + if d.items == [] then "]" else ItemsText(d.items))
    ensures d.Object? ==> Core(d) == "{" + (d.blank + if d.members == [] then "}" else MembersText(d.members))
  {}
}
