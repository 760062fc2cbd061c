/** Printing and reading JSON text undo each other, in either style and with white space or other text after it,
    and printed text is printable ASCII. */
module JsonText {
  import opened Common
  import opened Json

  /** Reading back a printed value gives that value and leaves exactly what followed it. */
  lemma {:induction false} ValueRoundTrip(v: Json, st: Style, rest: string)
    requires Wf(v) && Known(st) && Delimited(rest)
    ensures ParseValue(Print(v, st) + rest) == Some((v, rest))
    decreases v, 0
  {
    var p := Print(v, st) + rest;
    PrintStart(v, st);
    assert p[0] == Print(v, st)[0] && SkipWs(p) == p;
    match v
    case Null => assert p[4..] == rest;
    case Bool(b) => if b { assert p[4..] == rest; } else { assert p[5..] == rest; }
    case Num(n) => NumRoundTrip(n, rest);
    case Str(s) =>
      assert p[1..] == Escape(s) + "\"" + rest;
      StringRoundTrip(s, rest);
    case Arr(items) => ArrRoundTrip(items, st, rest);
    case Obj(fields) => ObjRoundTrip(fields, st, rest);
  }

  lemma {:induction false} ArrRoundTrip(items: seq<Json>, st: Style, rest: string)
    requires WfItems(items) && Known(st)
    ensures ParseValue("[" + PrintItems(items, st) + "]" + rest) == Some((Arr(items), rest))
    decreases items, 2
  {
    hide ParseItems, ParseFields, ParseUnsigned, ParseString, Print;
    var p, u := "[" + PrintItems(items, st) + "]" + rest, PrintItems(items, st) + "]" + rest;
    assert p[0] == '[' && p[1..] == u;
    if items == [] {
      assert u[0] == ']' && u[1..] == rest;
    } else {
      ItemsStart(items, st, rest);
      ItemsRoundTrip(items, st, rest);
    }
  }

  lemma {:induction false} ObjRoundTrip(fields: seq<Field>, st: Style, rest: string)
    requires WfFields(fields) && Known(st)
    ensures ParseValue("{" + PrintFields(fields, st) + "}" + rest) == Some((Obj(fields), rest))
    decreases fields, 2
  {
    hide ParseItems, ParseFields, ParseUnsigned, ParseString, PrintField, DictOf;
    var p, u := "{" + PrintFields(fields, st) + "}" + rest, PrintFields(fields, st) + "}" + rest;
    assert p[0] == '{' && p[1..] == u;
    if fields == [] {
      assert u[0] == '}' && u[1..] == rest;
    } else {
      FieldsStart(fields, st, rest);
      FieldsRoundTrip(fields, st, rest);
    }
    DistinctDict([], fields);
    assert [] + fields == fields;
  }

  lemma {:induction false} ItemsRoundTrip(items: seq<Json>, st: Style, rest: string)
    requires items != [] && WfItems(items) && Known(st)
    ensures ParseItems(PrintItems(items, st) + "]" + rest) == Some((items, rest))
    decreases items, 1
  {
    hide ParseItems, ParseValue, Print;
    if |items| == 1 {
      var p := Print(items[0], st) + ("]" + rest);
      ValueRoundTrip(items[0], st, "]" + rest);
      LastItem(p, items[0], rest);
      assert items == [items[0]] && PrintItems(items, st) + "]" + rest == p;
    } else {
      var next := PrintItems(items[1..], st) + "]" + rest;
      PrintItemsUnfold(items, st, rest);
      ItemsStart(items[1..], st, rest);
      AfterItem(st, next);
      ValueRoundTrip(items[0], st, st.item + next);
      ItemsRoundTrip(items[1..], st, rest);
      MoreItems(Print(items[0], st) + (st.item + next), items[0], st.item + next, next, items[1..], rest);
      assert items == [items[0]] + items[1..];
    }
  }

  lemma {:induction false} FieldRoundTrip(f: Field, st: Style, tail: string)
    requires Wf(f.val) && Known(st) && tail != [] && tail[0] in {'}', ','}
    ensures (var k := ParseKey(PrintField(f, st) + tail);
             k.Some? && k.value.0 == f.key && ParseValue(k.value.1) == Some((f.val, tail)))
    decreases f, 1
  {
    hide ParseValue, ParseKey, Print;
    var value := Print(f.val, st) + tail;
    var p := PrintField(f, st) + tail;
    assert p == Quote(f.key) + st.colon + value;
    PrintStart(f.val, st);
    assert value[0] == Print(f.val, st)[0];
    KeyRoundTrip(f.key, st, value);
    ValueSkipWs(ParseKey(p).value.1);
    ValueRoundTrip(f.val, st, tail);

  }

  lemma {:induction false} FieldsRoundTrip(fields: seq<Field>, st: Style, rest: string)
    requires fields != [] && WfFields(fields) && Known(st)
    ensures ParseFields(PrintFields(fields, st) + "}" + rest) == Some((fields, rest))
    decreases fields, 1
  {
    hide ParseFields, ParseKey, ParseValue;
    if |fields| == 1 {
      var p := PrintField(fields[0], st) + ("}" + rest);
      FieldRoundTrip(fields[0], st, "}" + rest);
      LastField(p, fields[0], ParseKey(p).value.1, rest);
      assert fields == [fields[0]] && PrintFields(fields, st) + "}" + rest == p;
    } else {
      PrintFieldsUnfold(fields, st, rest);
      FieldsRoundTrip(fields[1..], st, rest);
      FieldsStart(fields[1..], st, rest);
      MoreFieldsPrinted(fields[0], st, PrintFields(fields[1..], st) + "}" + rest, fields[1..], rest);
      assert fields == [fields[0]] + fields[1..];
    }
  }

  lemma {:induction false} MoreFieldsPrinted(f: Field, st: Style, next: string, fs: seq<Field>, rest: string)
    requires Wf(f.val) && Known(st) && ParseFields(next) == Some((fs, rest)) && next[0] == '"'
    ensures ParseFields(PrintField(f, st) + (st.item + next)) == Some(([f] + fs, rest))
    decreases f, 2
  {
    hide ParseKey, ParseValue, ParseFields, Print;
    var tail := st.item + next;
    var p := PrintField(f, st) + tail;
    AfterItem(st, next);
    FieldRoundTrip(f, st, tail);
    MoreFields(p, f, ParseKey(p).value.1, tail, next, fs, rest);
  }

  /** `json.loads(json.dumps(v)) == v`, entry order included. */
  lemma LoadsDumps(v: Json, st: Style)
    requires Wf(v) && Known(st)
    ensures Loads(Print(v, st)) == Some(v)
  {
    ValueRoundTrip(v, st, "");
    assert Print(v, st) + "" == Print(v, st);
  }

  lemma PrintInjective(v: Json, w: Json, st: Style)
    requires Wf(v) && Wf(w) && Known(st) && Print(v, st) == Print(w, st)
    ensures v == w
  {
    LoadsDumps(v, st);
    LoadsDumps(w, st);
  }

  lemma EscapeCharPrintable(c: char)
    ensures Printable(EscapeChar(c))
  {
    var n := c as int;
    if 0x1_0000 <= n {
      assert Printable(EscapeUnit(HighSurrogate(n))) && Printable(EscapeUnit(LowSurrogate(n)));
    }
  }

  lemma PrintableAppend(s: string, t: string)
    requires Printable(s) && Printable(t)
    ensures Printable(s + t)
  {}

  lemma {:induction false} EscapePrintable(s: string)
    ensures Printable(Escape(s))
  {
    if s != [] {
      EscapePrintable(s[1..]);
      EscapeCharPrintable(s[0]);
      PrintableAppend(EscapeChar(s[0]), Escape(s[1..]));
    }
  }

  lemma {:induction false} DigitsPrintable(n: nat)
    ensures Printable(Digits(n))
  {
    if n >= 10 { DigitsPrintable(n / 10); }
  }

  /** `ensure_ascii`: no control character, and in particular no NUL, is ever printed. */
  lemma {:induction false} PrintPrintable(v: Json, st: Style)
    requires Known(st)
    ensures Printable(Print(v, st))
    decreases v, 0
  {
    match v
    case Num(n) => DigitsPrintable(if n < 0 then -n else n);
    case Str(s) => EscapePrintable(s);
    case Arr(items) => ItemsPrintable(items, st);
    case Obj(fields) => FieldsPrintable(fields, st);
    case _ =>
  }

  lemma {:induction false} ItemsPrintable(items: seq<Json>, st: Style)
    requires Known(st)
    ensures Printable(PrintItems(items, st))
    decreases items, 1
  {
    if items != [] {
      PrintPrintable(items[0], st);
      ItemsPrintable(items[1..], st);
    }
  }

  lemma {:induction false} FieldsPrintable(fields: seq<Field>, st: Style)
    requires Known(st)
    ensures Printable(PrintFields(fields, st))
    decreases fields, 1
  {
    if fields != [] {
      EscapePrintable(fields[0].key);
      PrintPrintable(fields[0].val, st);
      FieldsPrintable(fields[1..], st);
      var head := PrintField(fields[0], st);
      PrintableAppend(Quote(fields[0].key) + st.colon, Print(fields[0].val, st));
      PrintableAppend(head, st.item);
      PrintableAppend(head + st.item, PrintFields(fields[1..], st));
    }
  }

  /** The escapes: short ones where there are any, lower-case hexadecimal for what is not printable ASCII, surrogate
      pairs past the basic plane, and the slash as it is. */
  lemma EscapesAs()
    ensures EscapeChar('"') == "\\\"" && EscapeChar('\\') == "\\\\" && EscapeChar('/') == "/"
    ensures EscapeChar('\n') == "\\n" && EscapeChar('\t') == "\\t" && EscapeChar('\r') == "\\r"
    ensures EscapeChar(8 as char) == "\\b" && EscapeChar(12 as char) == "\\f"
    ensures EscapeChar(0xE9 as char) == "\\u" + "00e9" && EscapeChar(0x7F as char) == "\\u" + "007f"
    ensures EscapeChar(0x1F600 as char) == ("\\u" + "d83d") + ("\\u" + "de00")
  {
    assert Hex4(0xE9) == "00e9" && Hex4(0x7F) == "007f";
    assert HighSurrogate(0x1F600) == 0xD83D && LowSurrogate(0x1F600) == 0xDE00;
    assert Hex4(0xD83D) == "d83d" && Hex4(0xDE00) == "de00";
  }
}
