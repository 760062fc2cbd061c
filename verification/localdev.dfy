/** Key binding in the local KMS adapter: which (user, purpose, aad) a wrapped DEK belongs to. */
module LocalDev {
  import opened Common
  import Utf8
  import opened AesGcm

  /** `_bind_aad` */
  function BindAad(purpose: string, userId: string, aad: bytes): bytes {
    Utf8.Encode(purpose + "|" + userId + "|") + aad
  }

  function UserLabel(userId: string, purpose: string): bytes { Utf8.Encode("user-" + userId + "-" + purpose) }

  function StaticLabel(keyId: string): bytes { Utf8.Encode("omur-kms-derive-v1:" + keyId) }

  /** `_user_key` and `_static_key` */
  function UserKey(master: bytes, userId: string, purpose: string): Key { Hmac(master, UserLabel(userId, purpose)) }

  function StaticKey(master: bytes, keyId: string): Key { Hmac(master, StaticLabel(keyId)) }

  datatype DekError = AuthError

  /** What `wrap_dek` asks the AEAD to seal. */
  function DekRequest(master: bytes, userId: string, purpose: string, dek: bytes, aad: bytes, nonce: bytes): Sealing {
    Sealing(UserKey(master, userId, purpose), nonce, dek, BindAad(purpose, userId, aad))
  }

  /** `wrap_dek` */
  function WrapDek(l: Ledger, master: bytes, userId: string, purpose: string, dek: bytes,
      aad: bytes, nonce: bytes): bytes
    requires |nonce| == NONCE_SIZE && DekRequest(master, userId, purpose, dek, aad, nonce) in l
  {
    WrapWithKey(l, UserKey(master, userId, purpose), dek, BindAad(purpose, userId, aad), nonce).value
  }

  /** `unwrap_dek` */
  ghost function UnwrapDek(l: Ledger, master: bytes, userId: string, purpose: string, wrapped: bytes, aad: bytes)
    : Result<bytes, DekError>
  {
    match UnwrapWithKey(l, UserKey(master, userId, purpose), wrapped, BindAad(purpose, userId, aad))
    case Ok(p) => Ok(p)
    case Err(_) => Err(AuthError)
  }

  lemma BindAadParts(purpose: string, userId: string, aad: bytes)
    ensures BindAad(purpose, userId, aad)
         == Utf8.Encode(purpose) + ['|' as int] + (Utf8.Encode(userId) + ['|' as int] + aad)
  {
    BarEncodes();
    hide Utf8.Encode;
    Utf8.EncodeAppend(purpose + "|" + userId, "|");
    Utf8.EncodeAppend(purpose + "|", userId);
    Utf8.EncodeAppend(purpose, "|");
    Regroup(Utf8.Encode(purpose), ['|' as int], Utf8.Encode(userId), ['|' as int], aad);
  }

  lemma BarEncodes()
    ensures Utf8.Encode("|") == ['|' as int]
  {
    assert "|"[1..] == "";
  }

  lemma Regroup(a: bytes, b: bytes, c: bytes, d: bytes, e: bytes)
    ensures ((a + b) + c) + d + e == a + b + (c + d + e)
  {}

  /** The HMAC label and the bound associated data together name the user, the purpose and the caller's
      associated data, for purposes without a bar. */
  lemma BindingInjective(u1: string, p1: string, a1: bytes, u2: string, p2: string, a2: bytes)
    requires '|' !in p1 && '|' !in p2
    ensures UserLabel(u1, p1) == UserLabel(u2, p2) && BindAad(p1, u1, a1) == BindAad(p2, u2, a2)
       <==> u1 == u2 && p1 == p2 && a1 == a2
  {
    if UserLabel(u1, p1) == UserLabel(u2, p2) && BindAad(p1, u1, a1) == BindAad(p2, u2, a2) {
      BindAadParts(p1, u1, a1);
      BindAadParts(p2, u2, a2);
      Utf8.AsciiOnlyAsItself(p1, '|');
      Utf8.AsciiOnlyAsItself(p2, '|');
      var t1, t2 := Utf8.Encode(u1) + ['|' as int] + a1, Utf8.Encode(u2) + ['|' as int] + a2;
      SplitFirst(Utf8.Encode(p1), t1, Utf8.Encode(p2), t2, '|' as int);
      Utf8.EncodeInjective(p1, p2);
      Utf8.EncodeInjective("user-" + u1 + "-" + p1, "user-" + u2 + "-" + p2);
      SplitAt("user-" + u1 + "-", p1, "user-" + u2 + "-", p2);
      SplitAt("user-" + u1, "-", "user-" + u2, "-");
      SplitAt("user-", u1, "user-", u2);
      SplitAt(Utf8.Encode(u1) + ['|' as int], a1, Utf8.Encode(u2) + ['|' as int], a2);
    }
  }

  /** Neither half is enough alone. */
  lemma NeitherHalfBinds()
    ensures UserLabel("a-b", "c") == UserLabel("a", "b-c")
    ensures BindAad("p", "u|x", []) == BindAad("p", "u", Utf8.Encode("x|"))
  {
    assert "user-" + "a-b" + "-" + "c" == "user-a-b-c" == "user-" + "a" + "-" + "b-c";
    Utf8.EncodeAppend("p" + "|" + "u" + "|", "x|");
    assert "p" + "|" + "u|x" + "|" == "p" + "|" + "u" + "|" + "x|";
    assert BindAad("p", "u|x", []) == Utf8.Encode("p" + "|" + "u|x" + "|");
  }

  /** With a bar in the purpose both halves together can coincide for different users and purposes. */
  lemma BarInPurposeCollides(aad: bytes)
    ensures UserLabel("-x|", "x") == UserLabel("", "x|-x")
    ensures BindAad("x", "-x|", aad) == BindAad("x|-x", "", aad)
  {
    assert "user-" + "-x|" + "-" + "x" == "user--x|-x" == "user-" + "" + "-" + "x|-x";
    assert "x" + "|" + "-x|" + "|" == "x|-x||" == "x|-x" + "|" + "" + "|";
  }

  lemma LabelLength(u: string, p: string)
    ensures |UserLabel(u, p)| == |Utf8.Encode("user-")| + |Utf8.Encode(u)| + |Utf8.Encode("-")| + |Utf8.Encode(p)|
  {
    Utf8.EncodeAppend("user-" + u + "-", p);
    Utf8.EncodeAppend("user-" + u, "-");
    Utf8.EncodeAppend("user-", u);
    hide Utf8.Encode;
  }

  /** Whatever the purposes, the two halves coincide exactly when the associated data are equal and the two
      texts `user-purpose` and `purpose|user` are: no collision ever mixes up associated data. */
  lemma CollidesExactly(u1: string, p1: string, a1: bytes, u2: string, p2: string, a2: bytes)
    ensures UserLabel(u1, p1) == UserLabel(u2, p2) && BindAad(p1, u1, a1) == BindAad(p2, u2, a2)
       <==> a1 == a2 && u1 + "-" + p1 == u2 + "-" + p2 && p1 + "|" + u1 == p2 + "|" + u2
  {
    BarEncodes();
    hide Utf8.Encode;
    var l1, l2 := "user-" + u1 + "-" + p1, "user-" + u2 + "-" + p2;
    var b1, b2 := p1 + "|" + u1 + "|", p2 + "|" + u2 + "|";
    assert l1 == "user-" + (u1 + "-" + p1) && l2 == "user-" + (u2 + "-" + p2);
    if UserLabel(u1, p1) == UserLabel(u2, p2) && BindAad(p1, u1, a1) == BindAad(p2, u2, a2) {
      Utf8.EncodeInjective(l1, l2);
      SplitAt("user-", u1 + "-" + p1, "user-", u2 + "-" + p2);
      LabelLength(u1, p1);
      LabelLength(u2, p2);
      BindAadParts(p1, u1, []);
      BindAadParts(p2, u2, []);
      assert |Utf8.Encode(b1)| == |Utf8.Encode(b2)|;
      SplitAt(Utf8.Encode(b1), a1, Utf8.Encode(b2), a2);
      Utf8.EncodeInjective(b1, b2);
      SplitAt(p1 + "|" + u1, "|", p2 + "|" + u2, "|");
    }
  }

  /** For purposes without a dash the label alone names user and purpose, so a bar does no harm. */
  lemma DashFreeBinds(u1: string, p1: string, u2: string, p2: string)
    requires '-' !in p1 && '-' !in p2
    ensures UserLabel(u1, p1) == UserLabel(u2, p2) <==> u1 == u2 && p1 == p2
  {
    hide Utf8.Encode;
    if UserLabel(u1, p1) == UserLabel(u2, p2) {
      Utf8.EncodeInjective("user-" + u1 + "-" + p1, "user-" + u2 + "-" + p2);
      SplitLast("user-" + u1, p1, "user-" + u2, p2, '-');
      SplitAt("user-", u1, "user-", u2);
    }
  }

  /** Whatever the purposes, `unwrap_dek` opens what `wrap_dek` sealed exactly when the associated data and both
      composed texts are the same; anything else is an auth error. */
  lemma UnwrapDekExact(l: Ledger, master: bytes, nonce: bytes, dek: bytes,
                       u1: string, p1: string, a1: bytes, u2: string, p2: string, a2: bytes)
    requires Ideal(l) && |nonce| == NONCE_SIZE && DekRequest(master, u1, p1, dek, a1, nonce) in l
    ensures UnwrapDek(l, master, u2, p2, WrapDek(l, master, u1, p1, dek, a1, nonce), a2)
         == if a2 == a1 && u2 + "-" + p2 == u1 + "-" + p1 && p2 + "|" + u2 == p1 + "|" + u1
            then Ok(dek) else Err(AuthError)
  {
    UnwrapExact(l, UserKey(master, u1, p1), dek, BindAad(p1, u1, a1), nonce,
                UserKey(master, u2, p2), BindAad(p2, u2, a2));
    CollidesExactly(u1, p1, a1, u2, p2, a2);
  }

  /** For purposes without a bar that is the same user, the same purpose and the same associated data. */
  lemma UnwrapDekBarFree(l: Ledger, master: bytes, nonce: bytes, dek: bytes,
                         u1: string, p1: string, a1: bytes, u2: string, p2: string, a2: bytes)
    requires Ideal(l) && |nonce| == NONCE_SIZE && DekRequest(master, u1, p1, dek, a1, nonce) in l
    requires '|' !in p1 && '|' !in p2
    ensures UnwrapDek(l, master, u2, p2, WrapDek(l, master, u1, p1, dek, a1, nonce), a2)
         == if u2 == u1 && p2 == p1 && a2 == a1 then Ok(dek) else Err(AuthError)
  {
    UnwrapDekExact(l, master, nonce, dek, u1, p1, a1, u2, p2, a2);
    hide UnwrapDek, WrapDek;
    BindingInjective(u1, p1, a1, u2, p2, a2);
    CollidesExactly(u1, p1, a1, u2, p2, a2);
  }

  /** The static-key flow and the per-user flow never share a key, and each static key id has its own. */
  lemma KeyFamiliesApart(master: bytes, k1: string, k2: string, userId: string, purpose: string)
    ensures StaticKey(master, k1) != UserKey(master, userId, purpose)
    ensures StaticKey(master, k1) == StaticKey(master, k2) <==> k1 == k2
  {
    var s, u := "omur-kms-derive-v1:" + k1, "user-" + userId + "-" + purpose;
    assert s[0] != u[0];
    if StaticLabel(k1) == UserLabel(userId, purpose) { Utf8.EncodeInjective(s, u); }
    if StaticLabel(k1) == StaticLabel(k2) {
      Utf8.EncodeInjective(s, "omur-kms-derive-v1:" + k2);
      SplitAt("omur-kms-derive-v1:", k1, "omur-kms-derive-v1:", k2);
    }
  }

  // ---- the static-key flow -----------------------------------------------------------

  function StaticRequest(master: bytes, keyId: string, plain: bytes, aad: bytes, nonce: bytes): Sealing {
    Sealing(StaticKey(master, keyId), nonce, plain, aad)
  }

  /** `wrap` and `unwrap` */
  function Wrap(l: Ledger, master: bytes, keyId: string, plain: bytes, aad: bytes, nonce: bytes): bytes
    requires |nonce| == NONCE_SIZE && StaticRequest(master, keyId, plain, aad, nonce) in l
  {
    WrapWithKey(l, StaticKey(master, keyId), plain, aad, nonce).value
  }

  ghost function Unwrap(l: Ledger, master: bytes, keyId: string, blob: bytes, aad: bytes): Result<bytes, Error> {
    UnwrapWithKey(l, StaticKey(master, keyId), blob, aad)
  }

  /** `unwrap` inverts `wrap` under the same key id and associated data, and fails under any other. */
  lemma StaticUnwrapExact(l: Ledger, master: bytes, nonce: bytes, plain: bytes,
      k1: string, a1: bytes, k2: string, a2: bytes)
    requires Ideal(l) && |nonce| == NONCE_SIZE && StaticRequest(master, k1, plain, a1, nonce) in l
    ensures Unwrap(l, master, k2, Wrap(l, master, k1, plain, a1, nonce), a2)
         == if k2 == k1 && a2 == a1 then Ok(plain) else Err(InvalidEnvelope)
  {
    UnwrapExact(l, StaticKey(master, k1), plain, a1, nonce, StaticKey(master, k2), a2);
    KeyFamiliesApart(master, k1, k2, "", "");
    KeyFamiliesApart(master, k2, k1, "", "");
  }

  /** Neither flow opens what the other sealed, whatever ids, purposes and associated data are tried. */
  lemma FlowsNeverMix(l: Ledger, master: bytes, nonce: bytes, plain: bytes, keyId: string, aad: bytes,
                      userId: string, purpose: string, aad2: bytes)
    requires Ideal(l) && |nonce| == NONCE_SIZE
    ensures StaticRequest(master, keyId, plain, aad, nonce) in l ==>
      UnwrapDek(l, master, userId, purpose, Wrap(l, master, keyId, plain, aad, nonce), aad2) == Err(AuthError)
    ensures DekRequest(master, userId, purpose, plain, aad2, nonce) in l ==>
      Unwrap(l, master, keyId, WrapDek(l, master, userId, purpose, plain, aad2, nonce), aad) == Err(InvalidEnvelope)
  {
    KeyFamiliesApart(master, keyId, keyId, userId, purpose);
    if StaticRequest(master, keyId, plain, aad, nonce) in l {
      UnwrapExact(l, StaticKey(master, keyId), plain, aad, nonce, UserKey(master, userId, purpose),
        BindAad(purpose, userId, aad2));
    }
    if DekRequest(master, userId, purpose, plain, aad2, nonce) in l {
      UnwrapExact(l, UserKey(master, userId, purpose), plain, BindAad(purpose, userId, aad2),
        nonce, StaticKey(master, keyId), aad);
    }
  }
}
