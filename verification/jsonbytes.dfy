/** How `json.loads` turns bytes into text: it guesses among five encodings from the first bytes and decodes
    with the `surrogatepass` error handler, under which only malformed bytes raise UnicodeDecodeError. */
module JsonBytes {
  import opened Common
  import opened Utf8

  /** `big` tells the byte order. */
  datatype Form = Wide1 | Wide2(big: bool) | Wide4(big: bool)

  /** The encoding guessed, and how many bytes of mark come before the text. */
  function Detect(b: bytes): (r: (Form, nat))
    ensures r.1 <= |b|
  {
    if |b| >= 4 && b[0] == 0x00 && b[1] == 0x00 && b[2] == 0xFE && b[3] == 0xFF then (Wide4(true), 4)
    else if |b| >= 4 && b[0] == 0xFF && b[1] == 0xFE && b[2] == 0x00 && b[3] == 0x00 then (Wide4(false), 4)
    else if |b| >= 2 && b[0] == 0xFE && b[1] == 0xFF then (Wide2(true), 2)
    else if |b| >= 2 && b[0] == 0xFF && b[1] == 0xFE then (Wide2(false), 2)
    else if |b| >= 3 && b[0] == 0xEF && b[1] == 0xBB && b[2] == 0xBF then (Wide1, 3)
    else if |b| >= 4 then
      if b[0] == 0 then (if b[1] != 0 then (Wide2(true), 0) else (Wide4(true), 0))
      else if b[1] == 0 then (if b[2] != 0 || b[3] != 0 then (Wide2(false), 0) else (Wide4(false), 0))
      else (Wide1, 0)
    else if |b| == 2 then
      if b[0] == 0 then (Wide2(true), 0)
      else if b[1] == 0 then (Wide2(false), 0)
      else (Wide1, 0)
    else (Wide1, 0)
  }

  function Unit2(b0: byte, b1: byte, big: bool): int {
    if big then b0 as int * 0x100 + b1 as int else b1 as int * 0x100 + b0 as int
  }

  function Unit4(b0: byte, b1: byte, b2: byte, b3: byte, big: bool): int {
    if big then Unit2(b0, b1, true) * 0x1_0000 + Unit2(b2, b3, true)
    else Unit2(b2, b3, false) * 0x1_0000 + Unit2(b0, b1, false)
  }

  /** UTF-16: a high surrogate joins a low one that follows it and stands for itself otherwise. */
  function Points2(b: bytes, big: bool): Option<seq<CodePoint>>
    decreases |b|
  {
    if b == [] then Some([])
    else if |b| < 2 then None
    else
      var u := Unit2(b[0], b[1], big);
      var w := if |b| >= 4 then Unit2(b[2], b[3], big) else 0;
      var (n, k) := if 0xD800 <= u < 0xDC00 && 0xDC00 <= w < 0xE000
                    then (0x1_0000 + (u - 0xD800) * 0x400 + (w - 0xDC00), 4) else (u, 2);
      match Points2(b[k..], big)
      case None => None
      case Some(ps) => Some([n] + ps)
  }

  /** UTF-32 */
  function Points4(b: bytes, big: bool): Option<seq<CodePoint>>
    decreases |b|
  {
    if b == [] then Some([])
    else if |b| < 4 || Unit4(b[0], b[1], b[2], b[3], big) >= 0x11_0000 then None
    else match Points4(b[4..], big)
      case None => None
      case Some(ps) => Some([Unit4(b[0], b[1], b[2], b[3], big)] + ps)
  }

  function Points(b: bytes, f: Form): Option<seq<CodePoint>> {
    match f
    case Wide1 => DecodePoints(b)
    case Wide2(big) => Points2(b, big)
    case Wide4(big) => Points4(b, big)
  }

  /** The text of `b`; None is UnicodeDecodeError. */
  function TextOf(b: bytes): Option<seq<CodePoint>> {
    var (f, k) := Detect(b);
    Points(b[k..], f)
  }

  // ---- which bytes are text ------------------------------------------------------------

  /** In the encoding guessed for them, the bytes spell code points: in UTF-8, surrogates included; in UTF-16,
      any even number of bytes; in UTF-32, whole units none of which lies past U+10FFFF. */
  ghost predicate IsText(b: bytes) {
    var (f, k) := Detect(b);
    var t := b[k..];
    match f
    case Wide1 => exists ps :: EncodePoints(ps) == t
    case Wide2(_) => |t| % 2 == 0
    case Wide4(big) => UnitsFit(t, big)
  }

  predicate UnitsFit(t: bytes, big: bool) {
    |t| % 4 == 0 && forall i | 0 <= i < |t| && i % 4 == 0 :: UnitAt(t, i, big) < 0x11_0000
  }

  function UnitAt(t: bytes, i: nat, big: bool): int
    requires i < |t| && |t| % 4 == 0 && i % 4 == 0
  {
    Unit4(t[i], t[i + 1], t[i + 2], t[i + 3], big)
  }

  /** Decoding UTF-16 goes on after one unit, or after two. */
  lemma UnitTaken(t: bytes, big: bool) returns (k: nat)
    requires |t| >= 2
    ensures k in {2, 4} && k <= |t| && (Points2(t, big).Some? <==> Points2(t[k..], big).Some?)
  {
    var u := Unit2(t[0], t[1], big);
    var w := if |t| >= 4 then Unit2(t[2], t[3], big) else 0;
    hide Unit2;
    k := if 0xD800 <= u < 0xDC00 && 0xDC00 <= w < 0xE000 then 4 else 2;
    var rest := Points2(t[k..], big);
  }

  lemma {:induction false} EvenIsText(t: bytes, big: bool)
    ensures Points2(t, big).Some? <==> |t| % 2 == 0
    decreases |t|
  {
    if |t| >= 2 {
      var k := UnitTaken(t, big);
      hide Points2;
      EvenIsText(t[k..], big);
    }
  }

  lemma UnitsFitStep(t: bytes, big: bool)
    requires |t| >= 4
    ensures UnitsFit(t, big) <==> Unit4(t[0], t[1], t[2], t[3], big) < 0x11_0000 && UnitsFit(t[4..], big)
  {
    hide Unit4;
    var r := t[4..];
    if |t| % 4 == 0 {
      assert UnitAt(t, 0, big) == Unit4(t[0], t[1], t[2], t[3], big);
      assert forall i | 0 <= i < |r| :: r[i] == t[i + 4];
      if UnitsFit(t, big) {
        forall i | 0 <= i < |r| && i % 4 == 0 ensures UnitAt(r, i, big) < 0x11_0000 {
          assert UnitAt(r, i, big) == UnitAt(t, i + 4, big);
        }
      }
      if UnitsFit(r, big) && UnitAt(t, 0, big) < 0x11_0000 {
        forall i | 0 <= i < |t| && i % 4 == 0 ensures UnitAt(t, i, big) < 0x11_0000 {
          if i > 0 { assert UnitAt(t, i, big) == UnitAt(r, i - 4, big); }
        }
      }
    }
  }

  lemma {:induction false} UnitsAreText(t: bytes, big: bool)
    ensures Points4(t, big).Some? <==> UnitsFit(t, big)
    decreases |t|
  {
    hide Unit4;
    if |t| >= 4 {
      UnitsAreText(t[4..], big);
      UnitsFitStep(t, big);
      hide UnitsFit;
    }
  }

  /** Exactly the bytes that spell no code points in the encoding guessed for them fail to decode. */
  lemma DecodesExactly(b: bytes)
    ensures TextOf(b).Some? <==> IsText(b)
  {
    var (f, k) := Detect(b);
    var t := b[k..];
    hide Detect;
    match f
    case Wide1 =>
      if DecodePoints(t).Some? { DecodePointsExact(t, DecodePoints(t).value); }
      if ps :| EncodePoints(ps) == t { DecodePointsExact(t, ps); }
    case Wide2(big) => EvenIsText(t, big);
    case Wide4(big) => UnitsAreText(t, big);
  }

  /** A single continuation byte is no text; an encoded surrogate is. */
  lemma SmallestCases()
    ensures !IsText([0x80]) && IsText([0xED, 0xA0, 0x80])
  {
    var a: bytes := [0x80];
    assert Detect(a) == (Wide1, 0) && a[0..] == a;
    assert DecodePoint(a) == None;
    DecodesExactly(a);
    var b: bytes := [0xED, 0xA0, 0x80];
    assert Detect(b) == (Wide1, 0) && b[0..] == b;
    assert EncodePoint(0xD800) == b;
    assert EncodePoints([0xD800]) == b + [] == b;
  }

  // ---- ASCII text in any of the encodings ------------------------------------------------

  predicate Ascii(s: string) { forall i | 0 <= i < |s| :: 0 < s[i] as int < 0x80 }

  function Spread(c: char, f: Form): bytes
    requires 0 < c as int < 0x80
  {
    var n := c as int;
    match f
    case Wide1 => [n]
    case Wide2(big) => if big then [0, n] else [n, 0]
    case Wide4(big) => if big then [0, 0, 0, n] else [n, 0, 0, 0]
  }

  function EncodeAs(s: string, f: Form): bytes
    requires Ascii(s)
  {
    if s == [] then [] else Spread(s[0], f) + EncodeAs(s[1..], f)
  }

  function Cons(n: CodePoint, r: Option<seq<CodePoint>>): Option<seq<CodePoint>> {
    match r case None => None case Some(ps) => Some([n] + ps)
  }

  lemma SpreadReads(c: char, rest: bytes, f: Form)
    requires 0 < c as int < 0x80
    ensures Points(Spread(c, f) + rest, f) == Cons(c as int, Points(rest, f))
  {
    var b := Spread(c, f) + rest;
    match f
    case Wide1 =>
      assert b[0] == c as int && b[1..] == rest && DecodePoint(b) == Some(c as int) && |EncodePoint(c as int)| == 1;
    case Wide2(big) =>
      assert b[0] == Spread(c, f)[0] && b[1] == Spread(c, f)[1] && b[2..] == rest;
      assert Unit2(b[0], b[1], big) == c as int;
    case Wide4(big) =>
      assert b[0] == Spread(c, f)[0] && b[1] == Spread(c, f)[1] && b[2] == Spread(c, f)[2] && b[3] == Spread(c, f)[3];
      assert b[4..] == rest && Unit4(b[0], b[1], b[2], b[3], big) == c as int;
  }

  lemma {:induction false} PointsOfAscii(s: string, f: Form)
    requires Ascii(s)
    ensures Points(EncodeAs(s, f), f) == Some(Codes(s))
  {
    if s == [] {
      assert Codes(s) == [];
    } else {
      PointsOfAscii(s[1..], f);
      SpreadReads(s[0], EncodeAs(s[1..], f), f);
      hide Points, Spread;
      assert Codes(s) == [s[0] as int] + Codes(s[1..]);
    }
  }

  /** ASCII text of two or more characters is read back from its bytes in each encoding, without a mark. */
  lemma AsciiReadsBack(s: string, f: Form)
    requires Ascii(s) && |s| >= 2
    ensures TextOf(EncodeAs(s, f)) == Some(Codes(s))
  {
    PointsOfAscii(s, f);
    var b := EncodeAs(s, f);
    hide Points, Detect, Codes;
    assert b == Spread(s[0], f) + (Spread(s[1], f) + EncodeAs(s[2..], f)) by { assert s[1..][1..] == s[2..]; }
    BareDetected(s[0], s[1], f, EncodeAs(s[2..], f));
    assert b[0..] == b;
  }

  /** The zero bytes of the first two characters give the encoding away. */
  lemma BareDetected(c: char, d: char, f: Form, rest: bytes)
    requires 0 < c as int < 0x80 && 0 < d as int < 0x80
    ensures Detect(Spread(c, f) + (Spread(d, f) + rest)) == (f, 0)
  {
    var b := Spread(c, f) + (Spread(d, f) + rest);
    var m := |Spread(c, f)|;
    assert |b| >= 2 * m && forall i | 0 <= i < m :: b[i] == Spread(c, f)[i] && b[m + i] == Spread(d, f)[i];
  }

  /** The byte-order mark of an encoding. */
  function Mark(f: Form): bytes {
    match f
    case Wide1 => [0xEF, 0xBB, 0xBF]
    case Wide2(big) => if big then [0xFE, 0xFF] else [0xFF, 0xFE]
    case Wide4(big) => if big then [0x00, 0x00, 0xFE, 0xFF] else [0xFF, 0xFE, 0x00, 0x00]
  }

  lemma MarkDetected(f: Form, e: bytes)
    requires f == Wide2(false) && |e| >= 2 ==> e[0] != 0
    ensures Detect(Mark(f) + e) == (f, |Mark(f)|)
  {
    var m := Mark(f);
    var b := m + e;
    assert |b| == |m| + |e| && forall i | 0 <= i < |m| :: b[i] == m[i];
    if f == Wide2(false) && |e| >= 2 { assert b[2] == e[0]; }
  }

  /** With its mark in front, text of any length is read back too, and the mark is no part of it. */
  lemma MarkedReadsBack(s: string, f: Form)
    requires Ascii(s)
    ensures TextOf(Mark(f) + EncodeAs(s, f)) == Some(Codes(s))
  {
    PointsOfAscii(s, f);
    var e := EncodeAs(s, f);
    if s != [] { assert e[0] == Spread(s[0], f)[0]; }
    hide Points, EncodeAs, Detect, Codes;
    MarkDetected(f, e);
    assert (Mark(f) + e)[|Mark(f)|..] == e;
  }
}
