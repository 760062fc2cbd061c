/** String encryption for settings secrets: `base64url("v1" || nonce || ciphertext || tag)`. */
module Encryption {
  import opened Common
  import Base64
  import Utf8
  import opened AesGcm

  const VERSION: bytes := [0x76, 0x31]
  const AAD: bytes := Utf8.Encode("omkit.encryption.v1")

  datatype Failure = BadKey | BadToken | BadText

  /** `_decode_key` */
  function DecodeKey(key: string): Result<bytes, Failure> {
    match Base64.Decode(key, Base64.UrlSafe)
    case None => Err(BadKey)
    case Some(raw) => if |raw| != KEK_SIZE then Err(BadKey) else Ok(raw)
  }

  /** `generate_key`, with the random bytes passed in. */
  function GenerateKey(random: bytes): string { Base64.Encode(random, Base64.UrlSafe) }

  /** What `encrypt_value` asks the AEAD to seal. */
  function Request(plaintext: string, raw: bytes, nonce: bytes): Sealing {
    Sealing(Raw(raw), nonce, Utf8.Encode(plaintext), AAD)
  }

  /** `encrypt_value` */
  function EncryptValue(l: Ledger, plaintext: string, key: string, nonce: bytes): Result<string, Failure>
    requires |nonce| == NONCE_SIZE
    requires DecodeKey(key).Ok? ==> Request(plaintext, DecodeKey(key).value, nonce) in l
  {
    match DecodeKey(key)
    case Err(e) => Err(e)
    case Ok(raw) =>
      match WrapWithKey(l, Raw(raw), Utf8.Encode(plaintext), AAD, nonce)
      case Err(_) => Err(BadKey)
      case Ok(blob) => Ok(Base64.Encode(VERSION + blob, Base64.UrlSafe))
  }

  /** `decrypt_value`; bytes that authenticate but are not UTF-8 surface as a text error. */
  ghost function DecryptValue(l: Ledger, token: string, key: string): Result<string, Failure> {
    match DecodeKey(key)
    case Err(e) => Err(e)
    case Ok(kek) => match Base64.Decode(token, Base64.UrlSafe)
      case None => Err(BadToken)
      case Some(raw) =>
        if |raw| < |VERSION| + 12 + 16 then Err(BadToken)
        else if raw[..|VERSION|] != VERSION then Err(BadToken)
        else match UnwrapWithKey(l, Raw(kek), raw[|VERSION|..], AAD)
          case Err(_) => Err(BadToken)
          case Ok(plain) => match Utf8.Decode(plain)
            case None => Err(BadText)
            case Some(s) => Ok(s)
  }

  /** A generated key is always usable: it decodes to the very bytes that were drawn. */
  lemma GeneratedKeyDecodes(random: bytes)
    requires |random| == KEK_SIZE
    ensures DecodeKey(GenerateKey(random)) == Ok(random)
  {
    Base64.DecodeEncode(random, Base64.UrlSafe);
  }

  /** The token is base64url for the two letters `v1`, the nonce, and the ciphertext of the UTF-8 plaintext under the
      decoded key, bound to the text `omkit.encryption.v1`. */
  lemma TokenFormat(l: Ledger, plaintext: string, key: string, nonce: bytes)
    requires Ideal(l) && |nonce| == NONCE_SIZE && DecodeKey(key).Ok?
    requires Request(plaintext, DecodeKey(key).value, nonce) in l
    ensures (var q := Sealing(Raw(DecodeKey(key).value), nonce, Utf8.Encode(plaintext),
      Utf8.Encode("omkit.encryption.v1"));
             && q in l && EncryptValue(l, plaintext, key, nonce).Ok?
             && Base64.Decode(EncryptValue(l, plaintext, key, nonce).value, Base64.UrlSafe)
                == Some(Utf8.Encode("v1") + nonce + l[q]))
  {
    FormatTexts();
    hide Base64.Decode, Base64.Encode, Utf8.Encode;
    var raw := DecodeKey(key).value;
    var blob := WrapWithKey(l, Raw(raw), Utf8.Encode(plaintext), AAD, nonce).value;
    Base64.DecodeEncode(VERSION + blob, Base64.UrlSafe);
    assert VERSION + blob == VERSION + nonce + l[Request(plaintext, raw, nonce)];
  }

  lemma FormatTexts()
    ensures VERSION == Utf8.Encode("v1")
  {
    assert "v1"[1..] == "1" && "1"[1..] == "";
    assert Utf8.EncodeChar('v') == [0x76] && Utf8.EncodeChar('1') == [0x31];
  }

  /** Every token passes the length and version gates and decrypts to the string it was made from, the
      empty string included, under its own key; under a different key it is an invalid token. Two key
      strings that decode alike are the same key. */
  lemma DecryptExact(l: Ledger, plaintext: string, key: string, nonce: bytes, key2: string)
    requires Ideal(l) && |nonce| == NONCE_SIZE && DecodeKey(key).Ok? && DecodeKey(key2).Ok?
    requires Request(plaintext, DecodeKey(key).value, nonce) in l
    ensures EncryptValue(l, plaintext, key, nonce).Ok?
    ensures DecryptValue(l, EncryptValue(l, plaintext, key, nonce).value, key2)
         == if DecodeKey(key2) == DecodeKey(key) then Ok(plaintext) else Err(BadToken)
  {
    hide Base64.Decode, Base64.Encode, Utf8.Decode, Utf8.Encode, UnwrapWithKey;
    var raw, plain := DecodeKey(key).value, Utf8.Encode(plaintext);
    UnwrapExact(l, Raw(raw), plain, AAD, nonce, Raw(DecodeKey(key2).value), AAD);
    var blob := WrapWithKey(l, Raw(raw), plain, AAD, nonce).value;
    Base64.DecodeEncode(VERSION + blob, Base64.UrlSafe);
    assert (VERSION + blob)[..|VERSION|] == VERSION && (VERSION + blob)[|VERSION|..] == blob;
    Utf8.DecodeExact(plain, plaintext);
  }

  /** Token `token` is the sealing of `plaintext` under the raw key, in the format above. */
  ghost predicate SealedAs(l: Ledger, token: string, plaintext: string, raw: bytes, nonce: bytes) {
    && |nonce| == NONCE_SIZE && Request(plaintext, raw, nonce) in l
    && Base64.Decode(token, Base64.UrlSafe) == Some(Utf8.Encode("v1") + nonce + l[Request(plaintext, raw, nonce)])
  }

  /** Nothing else decrypts: whatever characters a token holds, success means that it decodes to the letters `v1`, a
      nonce and a ciphertext that this key really sealed from this string under this module's associated data. */
  lemma DecryptSound(l: Ledger, token: string, key: string)
    requires Ideal(l) && DecryptValue(l, token, key).Ok?
    ensures exists nonce :: SealedAs(l, token, DecryptValue(l, token, key).value, DecodeKey(key).value, nonce)
  {
    FormatTexts();
    hide Base64.Decode, Utf8.Decode, Utf8.Encode, UnwrapWithKey;
    var kek, raw := DecodeKey(key).value, Base64.Decode(token, Base64.UrlSafe).value;
    var blob := raw[|VERSION|..];
    UnwrapSound(l, Raw(kek), blob, AAD);
    var plain := UnwrapWithKey(l, Raw(kek), blob, AAD).value;
    var text := DecryptValue(l, token, key).value;
    Utf8.DecodeExact(plain, text);
    var nonce := blob[..NONCE_SIZE];
    assert blob == nonce + l[Request(text, kek, nonce)];
    assert raw == VERSION + blob == VERSION + nonce + l[Request(text, kek, nonce)];
    assert SealedAs(l, token, text, kek, nonce);
  }
}
