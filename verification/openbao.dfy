/** The OpenBao adapter's Transit context: which (user, purpose, aad) a wrapped DEK belongs to. */
module OpenBao {
  import opened Common
  import Base64
  import Utf8

  function Inner(userId: string, purpose: string, aad: bytes): string {
    userId + ":" + purpose + ":" + Base64.Encode(aad, Base64.Standard)
  }

  /** `_derived_context` */
  function DerivedContext(userId: string, purpose: string, aad: bytes): string {
    Base64.Encode(Utf8.Encode(Inner(userId, purpose, aad)), Base64.Standard)
  }

  lemma ContextIsInner(u1: string, p1: string, a1: bytes, u2: string, p2: string, a2: bytes)
    ensures DerivedContext(u1, p1, a1) == DerivedContext(u2, p2, a2) <==> Inner(u1, p1, a1) == Inner(u2, p2, a2)
  {
    var i1, i2 := Inner(u1, p1, a1), Inner(u2, p2, a2);
    if DerivedContext(u1, p1, a1) == DerivedContext(u2, p2, a2) {
      Base64.EncodeInjective(Utf8.Encode(i1), Utf8.Encode(i2), Base64.Standard);
      Utf8.EncodeInjective(i1, i2);
    }
  }

  /** The context is standard base64 for the text user, colon, purpose, colon, and the standard base64 of the associated
      data: both layers read back in that alphabet. */
  lemma ContextReadsBack(userId: string, purpose: string, aad: bytes) returns (inner: string)
    ensures Base64.Decode(inner, Base64.Standard) == Some(aad)
    ensures Base64.Decode(DerivedContext(userId, purpose, aad), Base64.Standard)
         == Some(Utf8.Encode(userId + ":" + purpose + ":" + inner))
  {
    inner := Base64.Encode(aad, Base64.Standard);
    Base64.DecodeEncode(aad, Base64.Standard);
    Base64.DecodeEncode(Utf8.Encode(Inner(userId, purpose, aad)), Base64.Standard);
    hide Base64.Decode, Base64.Encode, Utf8.Encode;
  }

  /** For purposes without a colon the Transit context names the user, the purpose and the associated data. */
  lemma ContextInjective(u1: string, p1: string, a1: bytes, u2: string, p2: string, a2: bytes)
    requires ':' !in p1 && ':' !in p2
    ensures DerivedContext(u1, p1, a1) == DerivedContext(u2, p2, a2) <==> u1 == u2 && p1 == p2 && a1 == a2
  {
    ContextIsInner(u1, p1, a1, u2, p2, a2);
    hide DerivedContext, Base64.Encode;
    if Inner(u1, p1, a1) == Inner(u2, p2, a2) {
      var e1, e2 := Base64.Encode(a1, Base64.Standard), Base64.Encode(a2, Base64.Standard);
      Base64.DecodeEncode(a1, Base64.Standard);
      Base64.DecodeEncode(a2, Base64.Standard);
      assert Inner(u1, p1, a1) == (u1 + ":" + p1) + [':'] + e1 && Inner(u2, p2, a2) == (u2 + ":" + p2) + [':'] + e2;
      SplitLast(u1 + ":" + p1, e1, u2 + ":" + p2, e2, ':');
      SplitLast(u1, p1, u2, p2, ':');
      Base64.EncodeInjective(a1, a2, Base64.Standard);
    }
  }

  ghost predicate Ambiguous(u: string, p: string, a: bytes) {
    exists u2, p2, a2 :: DerivedContext(u2, p2, a2) == DerivedContext(u, p, a) && (u2 != u || p2 != p)
  }

  /** Exactly the triples with a colon in the user or the purpose share their context with another one. */
  lemma AmbiguousExactly(u: string, p: string, a: bytes)
    ensures Ambiguous(u, p, a) <==> ':' in u || ':' in p
  {
    hide DerivedContext;
    if ':' in p {
      var i :| 0 <= i < |p| && p[i] == ':';
      Moved(u, p[..i], p[i + 1..], a);
      assert p == p[..i] + ":" + p[i + 1..];
    } else if ':' in u {
      var i :| 0 <= i < |u| && u[i] == ':';
      Moved(u[..i], u[i + 1..], p, a);
      assert u == u[..i] + ":" + u[i + 1..];
    } else if Ambiguous(u, p, a) {
      var u2, p2, a2 :| DerivedContext(u2, p2, a2) == DerivedContext(u, p, a) && (u2 != u || p2 != p);
      ColonFreeIsUnique(u, p, a, u2, p2, a2);
    }
  }

  lemma ColonFreeIsUnique(u: string, p: string, a: bytes, u2: string, p2: string, a2: bytes)
    requires ':' !in u && ':' !in p && DerivedContext(u2, p2, a2) == DerivedContext(u, p, a)
    ensures u2 == u && p2 == p
  {
    ContextIsInner(u2, p2, a2, u, p, a);
    hide DerivedContext, Base64.Encode;
    var e, e2 := Base64.Encode(a, Base64.Standard), Base64.Encode(a2, Base64.Standard);
    Base64.DecodeEncode(a, Base64.Standard);
    Base64.DecodeEncode(a2, Base64.Standard);
    assert Inner(u, p, a) == (u + ":" + p) + [':'] + e && Inner(u2, p2, a2) == (u2 + ":" + p2) + [':'] + e2;
    SplitLast(u2 + ":" + p2, e2, u + ":" + p, e, ':');
    OneColon(u, p, u2, p2);
  }

  /** A colon can sit on either side of the field boundary. */
  lemma Moved(u: string, m: string, p: string, a: bytes)
    ensures DerivedContext(u, m + ":" + p, a) == DerivedContext(u + ":" + m, p, a)
    ensures Ambiguous(u, m + ":" + p, a) && Ambiguous(u + ":" + m, p, a)
  {
    assert Inner(u, m + ":" + p, a) == Inner(u + ":" + m, p, a);
    assert |u + ":" + m| != |u|;
  }

  lemma OneColon(u: string, p: string, u2: string, p2: string)
    requires ':' !in u && ':' !in p && u + ":" + p == u2 + ":" + p2
    ensures u == u2 && p == p2
  {
    var s, t := u + ":" + p, u2 + ":" + p2;
    assert t[|u2|] == ':';
    assert |u2| == |u|;
    SplitAt(u + ":", p, u2 + ":", p2);
    SplitAt(u, ":", u2, ":");
  }
}
