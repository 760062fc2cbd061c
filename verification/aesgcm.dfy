module AesGcm {
  // The AES-GCM envelope `nonce || ciphertext || tag` over an ideal AEAD (section 7 of NIST SP 800-38D).

  import opened Common

  const NONCE_SIZE := 12
  const TAG_SIZE := 16
  const KEK_SIZE := 32

  /** A key given as bytes, or the 32-byte HMAC-SHA256 of a label under a master secret. HMAC is ideal:
      different (master, label) pairs are different keys. */
  datatype Key = Raw(b: bytes) | Hmac(master: bytes, lbl: bytes)

  function KeySize(k: Key): nat { match k case Raw(b) => |b| case Hmac(_, _) => 32 }

  datatype Sealing = Sealing(key: Key, nonce: bytes, plain: bytes, aad: bytes)

  type Ledger = map<Sealing, bytes>

  /** An AEAD over unbounded inputs cannot be injective, so "ideal" is stated the usual way: a ledger holds every
      sealing done so far, no two of them share a ciphertext, and a ciphertext opens exactly under the key,
      nonce and associated data it was sealed with. */
  ghost predicate Ideal(l: Ledger) {
    && (forall q | q in l :: |l[q]| == |q.plain| + TAG_SIZE)
    && (forall q, r | q in l && r in l && l[q] == l[r] :: q == r)
  }

  datatype Error = InvalidKey | InvalidEnvelope

  ghost predicate Opens(l: Ledger, q: Sealing, key: Key, nonce: bytes, ct: bytes, aad: bytes) {
    q in l && l[q] == ct && q.key == key && q.nonce == nonce && q.aad == aad
  }

  /** `AESGCM.decrypt`: the sealed plaintext, or `InvalidTag`. */
  ghost function Open(l: Ledger, key: Key, nonce: bytes, ct: bytes, aad: bytes): Option<bytes> {
    if exists q :: Opens(l, q, key, nonce, ct, aad)
    then var q :| Opens(l, q, key, nonce, ct, aad); Some(q.plain)
    else None
  }

  /** `wrap_with_key`, with the random nonce it draws passed in; the ledger already holds the sealing. */
  function WrapWithKey(l: Ledger, kek: Key, plain: bytes, aad: bytes, nonce: bytes): Result<bytes, Error>
    requires |nonce| == NONCE_SIZE
    requires Sealing(kek, nonce, plain, aad) in l
  {
    if KeySize(kek) != KEK_SIZE then Err(InvalidKey) else Ok(nonce + l[Sealing(kek, nonce, plain, aad)])
  }

  /** `unwrap_with_key` */
  ghost function UnwrapWithKey(l: Ledger, kek: Key, blob: bytes, aad: bytes): Result<bytes, Error> {
    if KeySize(kek) != KEK_SIZE then Err(InvalidKey)
    else if |blob| < NONCE_SIZE then Err(InvalidEnvelope)
    else match Open(l, kek, blob[..NONCE_SIZE], blob[NONCE_SIZE..], aad)
      case None => Err(InvalidEnvelope)
      case Some(p) => Ok(p)
  }

  /** A wrapped blob unwraps to its plaintext under its own key and associated data, and to an
      authentication failure under any other. */
  lemma UnwrapExact(l: Ledger, kek: Key, plain: bytes, aad: bytes, nonce: bytes, kek2: Key, aad2: bytes)
    requires Ideal(l) && |nonce| == NONCE_SIZE && Sealing(kek, nonce, plain, aad) in l
    requires KeySize(kek) == 32 && KeySize(kek2) == 32
    ensures WrapWithKey(l, kek, plain, aad, nonce) == Ok(nonce + l[Sealing(kek, nonce, plain, aad)])
    ensures (var blob := WrapWithKey(l, kek, plain, aad, nonce).value;
             && |blob| == 12 + |plain| + 16
             && UnwrapWithKey(l, kek2, blob, aad2)
                == if kek2 == kek && aad2 == aad then Ok(plain) else Err(InvalidEnvelope))
  {
    var q := Sealing(kek, nonce, plain, aad);
    var blob := WrapWithKey(l, kek, plain, aad, nonce).value;
    SplitAt(nonce, l[q], blob[..NONCE_SIZE], blob[NONCE_SIZE..]);
    if kek2 == kek && aad2 == aad {
      assert Opens(l, q, kek2, nonce, l[q], aad2);
    }
  }

  /** A key of any other size is refused both ways, and so is a blob too short for a nonce and a tag. */
  lemma WrongSizes(l: Ledger, kek: Key, plain: bytes, aad: bytes, nonce: bytes, blob: bytes)
    requires Ideal(l) && |nonce| == NONCE_SIZE && Sealing(kek, nonce, plain, aad) in l
    ensures KeySize(kek) != 32 ==>
      WrapWithKey(l, kek, plain, aad, nonce) == Err(InvalidKey) == UnwrapWithKey(l, kek, blob, aad)
    ensures KeySize(kek) == 32 && |blob| < 28 ==> UnwrapWithKey(l, kek, blob, aad) == Err(InvalidEnvelope)
  {
    if KeySize(kek) == 32 && UnwrapWithKey(l, kek, blob, aad).Ok? { UnwrapSound(l, kek, blob, aad); }
  }

  /** Nothing else unwraps: a blob that authenticates was produced by `wrap_with_key` under that very
      key and associated data, from the plaintext it yields. */
  lemma UnwrapSound(l: Ledger, kek: Key, blob: bytes, aad: bytes)
    requires Ideal(l) && UnwrapWithKey(l, kek, blob, aad).Ok?
    ensures |blob| >= 12 + 16
    ensures (var p := UnwrapWithKey(l, kek, blob, aad).value;
             && Sealing(kek, blob[..NONCE_SIZE], p, aad) in l
             && WrapWithKey(l, kek, p, aad, blob[..NONCE_SIZE]) == Ok(blob))
  {
    var nonce, ct := blob[..NONCE_SIZE], blob[NONCE_SIZE..];
    var q :| Opens(l, q, kek, nonce, ct, aad);
    assert q == Sealing(kek, nonce, q.plain, aad);
    assert blob == nonce + ct;
  }
}
