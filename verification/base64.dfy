/** base64 (sections 4 and 5 of RFC 4648) as Python writes it, and as Python's lenient decoder reads it: what is
    foreign to the alphabet is passed over. */
module Base64 {
  import opened Common

  datatype Alphabet = Standard | UrlSafe

  function Symbol(v: int, a: Alphabet): char
    requires 0 <= v < 64
  {
    if v < 26 then ('A' as int + v) as char
    else if v < 52 then ('a' as int + v - 26) as char
    else if v < 62 then ('0' as int + v - 52) as char
    else if v == 62 then (if a == Standard then '+' else '-')
    else if a == Standard then '/' else '_'
  }

  function Encode(b: bytes, a: Alphabet): string {
    if b == [] then ""
    else if |b| == 1 then [Symbol(b[0] / 4, a), Symbol(b[0] % 4 * 16, a), '=', '=']
    else if |b| == 2 then [Symbol(b[0] / 4, a), Symbol(b[0] % 4 * 16 + b[1] / 16, a), Symbol(b[1] % 16 * 4, a), '=']
    else
      [Symbol(b[0] / 4, a), Symbol(b[0] % 4 * 16 + b[1] / 16, a), Symbol(b[1] % 16 * 4 + b[2] / 64, a),
        Symbol(b[2] % 64, a)]
      + Encode(b[3..], a)
  }

  /** The URL-safe decoder maps `-_` to `+/` first, so it also accepts those. */
  function SymbolValue(c: char, a: Alphabet): (r: Option<int>)
    ensures r.Some? ==> 0 <= r.value < 64
  {
    if 'A' <= c <= 'Z' then Some(c as int - 'A' as int)
    else if 'a' <= c <= 'z' then Some(c as int - 'a' as int + 26)
    else if '0' <= c <= '9' then Some(c as int - '0' as int + 52)
    else if c == '+' || (a == UrlSafe && c == '-') then Some(62)
    else if c == '/' || (a == UrlSafe && c == '_') then Some(63)
    else None
  }

  function Prepend(b: byte, r: Option<bytes>): Option<bytes> {
    match r case None => None case Some(t) => Some([b] + t)
  }

  /** `binascii.a2b_base64` without strict mode: characters outside the alphabet are skipped, and enough
      padding ends the input. `quad` counts the symbols of the current group, `left` holds their
      unused bits. */
  function A2b(s: string, a: Alphabet, quad: int, left: int, pads: nat): Option<bytes>
    requires 0 <= quad < 4
    requires 0 <= left && (quad == 1 ==> left < 64) && (quad == 2 ==> left < 16) && (quad == 3 ==> left < 4)
  {
    if s == [] then (if quad == 0 then Some([]) else None)
    else if s[0] == '=' then
      if quad >= 2 && quad + pads + 1 >= 4 then Some([])
      else A2b(s[1..], a, quad, left, if quad >= 2 then pads + 1 else pads)
    else match SymbolValue(s[0], a)
      case None => A2b(s[1..], a, quad, left, pads)
      case Some(v) =>
        if quad == 0 then A2b(s[1..], a, 1, v, 0)
        else if quad == 1 then Prepend(left * 4 + v / 16, A2b(s[1..], a, 2, v % 16, 0))
        else if quad == 2 then Prepend(left * 16 + v / 4, A2b(s[1..], a, 3, v % 4, 0))
        else Prepend(left * 64 + v, A2b(s[1..], a, 0, 0, 0))
  }

  /** `b64decode(s.encode("ascii"))` for either alphabet. */
  function Decode(s: string, a: Alphabet): Option<bytes> {
    if exists i | 0 <= i < |s| :: s[i] as int >= 128 then None else A2b(s, a, 0, 0, 0)
  }

  lemma SymbolRoundTrip(v: int, a: Alphabet)
    requires 0 <= v < 64
    ensures SymbolValue(Symbol(v, a), a) == Some(v) && Symbol(v, a) != '='
  {}

  /** One symbol at the front of the input advances the decoder by six bits. */
  lemma ReadSymbol(v: int, rest: string, a: Alphabet, quad: int, left: int, pads: nat)
    requires 0 <= v < 64 && 0 <= quad < 4
    requires 0 <= left && (quad == 1 ==> left < 64) && (quad == 2 ==> left < 16) && (quad == 3 ==> left < 4)
    ensures A2b([Symbol(v, a)] + rest, a, quad, left, pads)
         == (if quad == 0 then A2b(rest, a, 1, v, 0)
             else if quad == 1 then Prepend(left * 4 + v / 16, A2b(rest, a, 2, v % 16, 0))
             else if quad == 2 then Prepend(left * 16 + v / 4, A2b(rest, a, 3, v % 4, 0))
             else Prepend(left * 64 + v, A2b(rest, a, 0, 0, 0)))
  {
    SymbolRoundTrip(v, a);
    assert ([Symbol(v, a)] + rest)[1..] == rest;
  }

  lemma PaddingEnds(a: Alphabet, left: int)
    requires 0 <= left < 4
    ensures A2b("==", a, 2, left, 0) == Some([]) && A2b("=", a, 3, left, 0) == Some([])
  {
    assert "=="[1..] == "=";
  }

  /** The four symbols of a group, and the three bytes they spell. */
  lemma GroupSymbols(b0: byte, b1: byte, b2: byte)
    ensures (var v0, v1, v2, v3 := b0 / 4, b0 % 4 * 16 + b1 / 16, b1 % 16 * 4 + b2 / 64, b2 % 64;
             && 0 <= v0 < 64 && 0 <= v1 < 64 && 0 <= v2 < 64 && 0 <= v3 < 64
             && v0 * 4 + v1 / 16 == b0 && v1 % 16 * 16 + v2 / 4 == b1 && v2 % 4 * 64 + v3 == b2)
  {
    assert (b0 % 4 * 16 + b1 / 16) / 16 == b0 % 4 && (b0 % 4 * 16 + b1 / 16) % 16 == b1 / 16;
    assert (b1 % 16 * 4 + b2 / 64) / 4 == b1 % 16 && (b1 % 16 * 4 + b2 / 64) % 4 == b2 / 64;
  }

  /** Four symbols at the front of the input. */
  lemma ReadFour(v0: int, v1: int, v2: int, v3: int, rest: string, a: Alphabet)
    requires 0 <= v0 < 64 && 0 <= v1 < 64 && 0 <= v2 < 64 && 0 <= v3 < 64
    ensures A2b([Symbol(v0, a), Symbol(v1, a), Symbol(v2, a), Symbol(v3, a)] + rest, a, 0, 0, 0)
         == Prepend(v0 * 4 + v1 / 16, Prepend(v1 % 16 * 16 + v2 / 4, Prepend(v2 % 4 * 64 + v3, A2b(rest, a, 0, 0, 0))))
  {
    hide A2b, Symbol, SymbolValue;
    var s0, s1, s2, s3 := [Symbol(v0, a)], [Symbol(v1, a)], [Symbol(v2, a)], [Symbol(v3, a)];
    assert [Symbol(v0, a), Symbol(v1, a), Symbol(v2, a), Symbol(v3, a)] + rest == s0 + (s1 + (s2 + (s3 + rest)));
    ReadSymbol(v0, s1 + (s2 + (s3 + rest)), a, 0, 0, 0);
    ReadSymbol(v1, s2 + (s3 + rest), a, 1, v0, 0);
    ReadSymbol(v2, s3 + rest, a, 2, v1 % 16, 0);
    ReadSymbol(v3, rest, a, 3, v2 % 4, 0);
  }

  /** The decoder undoes one full group of three bytes. */
  lemma ReadGroup(b0: byte, b1: byte, b2: byte, rest: string, a: Alphabet)
    ensures A2b([Symbol(b0 / 4, a), Symbol(b0 % 4 * 16 + b1 / 16, a),
                 Symbol(b1 % 16 * 4 + b2 / 64, a), Symbol(b2 % 64, a)] + rest,
                a, 0, 0, 0)
         == Prepend(b0, Prepend(b1, Prepend(b2, A2b(rest, a, 0, 0, 0))))
  {
    GroupSymbols(b0, b1, b2);
    hide A2b, Symbol, SymbolValue, Prepend;
    ReadFour(b0 / 4, b0 % 4 * 16 + b1 / 16, b1 % 16 * 4 + b2 / 64, b2 % 64, rest, a);
  }

  /** The decoder undoes the padded group that carries one last byte. */
  lemma ReadOne(b0: byte, a: Alphabet)
    ensures A2b([Symbol(b0 / 4, a), Symbol(b0 % 4 * 16, a), '=', '='], a, 0, 0, 0) == Some([b0])
  {
    hide A2b, Symbol, SymbolValue;
    PaddingEnds(a, 0);
    var v0, w := b0 / 4, b0 % 4 * 16;
    assert w % 16 == 0 && w / 16 == b0 % 4;
    assert [Symbol(v0, a), Symbol(w, a), '=', '='] == [Symbol(v0, a)] + ([Symbol(w, a)] + "==");
    ReadSymbol(v0, [Symbol(w, a)] + "==", a, 0, 0, 0);
    ReadSymbol(w, "==", a, 1, v0, 0);
    assert v0 * 4 + w / 16 == b0 && [b0] + [] == [b0];
  }

  /** The decoder undoes the padded group that carries two last bytes. */
  lemma ReadTwo(b0: byte, b1: byte, a: Alphabet)
    ensures A2b([Symbol(b0 / 4, a), Symbol(b0 % 4 * 16 + b1 / 16, a), Symbol(b1 % 16 * 4, a), '='], a, 0, 0, 0)
      == Some([b0, b1])
  {
    hide A2b, Symbol, SymbolValue;
    PaddingEnds(a, 0);
    var v0, v1, w := b0 / 4, b0 % 4 * 16 + b1 / 16, b1 % 16 * 4;
    assert w % 4 == 0 && w / 4 == b1 % 16 && v1 % 16 == b1 / 16;
    assert [Symbol(v0, a), Symbol(v1, a), Symbol(w, a), '=']
      == [Symbol(v0, a)] + ([Symbol(v1, a)] + ([Symbol(w, a)] + "="));
    ReadSymbol(v0, [Symbol(v1, a)] + ([Symbol(w, a)] + "="), a, 0, 0, 0);
    ReadSymbol(v1, [Symbol(w, a)] + "=", a, 1, v0, 0);
    ReadSymbol(w, "=", a, 2, v1 % 16, 0);
    assert v0 * 4 + v1 / 16 == b0 && v1 % 16 * 16 + w / 4 == b1 && [b0] + ([b1] + []) == [b0, b1];
  }

  lemma PrependThree(b: bytes)
    requires |b| >= 3
    ensures Prepend(b[0], Prepend(b[1], Prepend(b[2], Some(b[3..])))) == Some(b)
  {
    assert b == [b[0]] + ([b[1]] + ([b[2]] + b[3..]));
  }

  lemma EncodeGroup(b: bytes, a: Alphabet)
    requires |b| >= 3
    ensures Encode(b, a)
         == [Symbol(b[0] / 4, a), Symbol(b[0] % 4 * 16 + b[1] / 16, a),
           Symbol(b[1] % 16 * 4 + b[2] / 64, a), Symbol(b[2] % 64, a)]
            + Encode(b[3..], a)
  {
    hide Symbol;
  }

  lemma A2bTail(b: bytes, a: Alphabet)
    requires |b| < 3
    ensures A2b(Encode(b, a), a, 0, 0, 0) == Some(b)
  {
    if |b| == 2 {
      assert b == [b[0], b[1]];
      hide A2b, Symbol;
      ReadTwo(b[0], b[1], a);
    } else if |b| == 1 {
      assert b == [b[0]];
      hide A2b, Symbol;
      ReadOne(b[0], a);
    }
  }

  lemma {:induction false} A2bEncode(b: bytes, a: Alphabet)
    ensures A2b(Encode(b, a), a, 0, 0, 0) == Some(b)
  {
    hide *;
    if |b| < 3 {
      A2bTail(b, a);
    } else {
      EncodeGroup(b, a);
      ReadGroup(b[0], b[1], b[2], Encode(b[3..], a), a);
      A2bEncode(b[3..], a);
      PrependThree(b);
    }
  }

  lemma {:induction false} EncodeSymbols(b: bytes, a: Alphabet)
    ensures forall i | 0 <= i < |Encode(b, a)| ::
              Encode(b, a)[i] == '=' || SymbolValue(Encode(b, a)[i], a).Some?
  {
    if |b| >= 3 { EncodeSymbols(b[3..], a); }
    forall v | 0 <= v < 64 ensures SymbolValue(Symbol(v, a), a).Some? { SymbolRoundTrip(v, a); }
  }

  /** Decoding an encoding gives back the bytes, for both alphabets and any length. */
  lemma DecodeEncode(b: bytes, a: Alphabet)
    ensures Decode(Encode(b, a), a) == Some(b)
    ensures ':' !in Encode(b, a)
  {
    A2bEncode(b, a);
    EncodeSymbols(b, a);
  }

  lemma EncodeInjective(b: bytes, c: bytes, a: Alphabet)
    requires Encode(b, a) == Encode(c, a)
    ensures b == c
  {
    A2bEncode(b, a);
    A2bEncode(c, a);
  }

  predicate Foreign(c: char, a: Alphabet) { c as int < 128 && c != '=' && SymbolValue(c, a).None? }

  lemma {:induction false} ForeignInside(s: string, c: char, t: string, a: Alphabet, quad: int, left: int, pads: nat)
    requires 0 <= quad < 4 && Foreign(c, a)
    requires 0 <= left && (quad == 1 ==> left < 64) && (quad == 2 ==> left < 16) && (quad == 3 ==> left < 4)
    ensures A2b(s + [c] + t, a, quad, left, pads) == A2b(s + t, a, quad, left, pads)
    decreases |s|
  {
    if s == [] {
      assert (s + [c] + t)[1..] == t && s + t == t;
    } else {
      assert (s + [c] + t)[1..] == s[1..] + [c] + t && (s + t)[1..] == s[1..] + t;
      assert (s + [c] + t)[0] == s[0] == (s + t)[0];
      var v := SymbolValue(s[0], a);
      var (q, l, n) :=
        if s[0] == '=' then (quad, left, if quad >= 2 then pads + 1 else pads)
        else if v.None? then (quad, left, pads)
        else if quad == 0 then (1, v.value, 0)
        else if quad == 1 then (2, v.value % 16, 0)
        else if quad == 2 then (3, v.value % 4, 0)
        else (0, 0, 0);
      hide SymbolValue;
      ForeignInside(s[1..], c, t, a, q, l, n);
    }
  }

  lemma WideSplit(a: string, b: string)
    ensures (exists i | 0 <= i < |a + b| :: (a + b)[i] as int >= 128)
       <==> (exists i | 0 <= i < |a| :: a[i] as int >= 128) || (exists i | 0 <= i < |b| :: b[i] as int >= 128)
  {
    var u := a + b;
    if i :| 0 <= i < |u| && u[i] as int >= 128 {
      if i < |a| { assert a[i] as int >= 128; } else { assert b[i - |a|] as int >= 128; }
    }
    if i :| 0 <= i < |a| && a[i] as int >= 128 { assert u[i] as int >= 128; }
    if i :| 0 <= i < |b| && b[i] as int >= 128 { assert u[|a| + i] as int >= 128; }
  }

  /** The decoder passes over characters that belong to neither the alphabet nor the padding. */
  lemma ForeignSkipped(s: string, c: char, t: string, a: Alphabet)
    requires Foreign(c, a)
    ensures Decode(s + [c] + t, a) == Decode(s + t, a)
  {
    hide A2b, SymbolValue;
    ForeignInside(s, c, t, a, 0, 0, 0);
    WideSplit(s + [c], t);
    WideSplit(s, [c]);
    WideSplit(s, t);
    assert [c][0] == c;
  }
}
