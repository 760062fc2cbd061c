/** The scheduler's change detector: a digest over cron spec, NUL and canonical config. */
module ConfigDigest {
  import opened Common
  import opened Json
  import opened JsonText
  import opened Canonical
  import Utf8

  /** A SHA-256 digest, named by its preimage: an ideal hash never maps two inputs to one digest. */
  datatype Digest = Sha256(preimage: bytes)

  /** `_config_hash` */
  function ConfigHash(cronspec: string, cfg: Json): Digest {
    Sha256(Utf8.Encode(cronspec) + [0] + Utf8.Encode(CanonicalText(cfg)))
  }

  lemma CanonicalHasNoNul(cfg: Json)
    ensures 0 !in Utf8.Encode(CanonicalText(cfg))
  {
    PrintPrintable(Sort(cfg), COMPACT);
    Utf8.AsciiOnlyAsItself(CanonicalText(cfg), '\0');
  }

  /** "Hash unchanged" means exactly "schedule and config unchanged", whatever the insertion order of
      the config's keys and whatever characters (NUL included) the cron spec holds. */
  lemma HashExact(c1: string, cfg1: Json, c2: string, cfg2: Json)
    requires Wf(cfg1) && Wf(cfg2)
    ensures ConfigHash(c1, cfg1) == ConfigHash(c2, cfg2) <==> c1 == c2 && Meaning(cfg1) == Meaning(cfg2)
  {
    var t1, t2 := CanonicalText(cfg1), CanonicalText(cfg2);
    CanonicalExact(cfg1, cfg2, COMPACT);
    if ConfigHash(c1, cfg1) == ConfigHash(c2, cfg2) {
      CanonicalHasNoNul(cfg1);
      CanonicalHasNoNul(cfg2);
      SplitLast(Utf8.Encode(c1), Utf8.Encode(t1), Utf8.Encode(c2), Utf8.Encode(t2), 0);
      Utf8.EncodeInjective(c1, c2);
      Utf8.EncodeInjective(t1, t2);
    }
  }

  /** `s` comes first in code-point order: at the first difference, or as a proper prefix. */
  ghost predicate Earlier(s: string, t: string) {
    s < t || exists i :: 0 <= i < |s| && i < |t| && s[..i] == t[..i] && s[i] < t[i]
  }

  lemma {:induction false} EarlierIsBefore(s: string, t: string)
    requires Earlier(s, t)
    ensures Before(s, t)
  {
    if s < t {
      if s != [] {
        assert s[1..] < t[1..];
        EarlierIsBefore(s[1..], t[1..]);
      }
    } else {
      var i :| 0 <= i < |s| && i < |t| && s[..i] == t[..i] && s[i] < t[i];
      if i > 0 {
        assert s[0] == s[..i][0] == t[..i][0] == t[0];
        assert s[1..][..i - 1] == s[..i][1..] == t[1..][..i - 1] && s[1..][i - 1] < t[1..][i - 1];
        EarlierIsBefore(s[1..], t[1..]);
      }
    }
  }

  /** The bytes hashed for a config of two entries, whichever was inserted first: the earlier key first, and not a
      blank between. */
  lemma CanonicalBytes(f: Field, g: Field)
    requires Earlier(f.key, g.key)
    ensures (var text := "{" + (Quote(f.key) + ":" + CanonicalText(f.val)) + ","
                         + (Quote(g.key) + ":" + CanonicalText(g.val)) + "}";
             CanonicalText(Obj([f, g])) == text == CanonicalText(Obj([g, f])))
  {
    EarlierIsBefore(f.key, g.key);
    BeforeTotal(f.key, g.key);
    hide Earlier, Before, Quote;
    var a, b := Field(f.key, Sort(f.val)), Field(g.key, Sort(g.val));
    assert [f, g][1..] == [g] && [g, f][1..] == [f] && [f][1..] == [] && [g][1..] == [];
    assert SortFields([f]) == [a] && SortFields([g]) == [b];
    assert Insert(a, [b]) == [a, b] && Insert(b, [a]) == [a, b] by { assert [a][1..] == []; }
    assert SortFields([f, g]) == [a, b] == SortFields([g, f]);
    hide SortFields, Sort;
    TwoPrinted(a, b);
  }

  lemma TwoPrinted(a: Field, b: Field)
    ensures Print(Obj([a, b]), COMPACT)
         == "{" + (Quote(a.key) + ":" + Print(a.val, COMPACT)) + ","
           + (Quote(b.key) + ":" + Print(b.val, COMPACT)) + "}"
  {
    hide Quote;
    assert [a, b][1..] == [b];
    assert PrintFields([b], COMPACT) == PrintField(b, COMPACT);
    assert PrintFields([a, b], COMPACT) == PrintField(a, COMPACT) + "," + PrintField(b, COMPACT);
    var s, t := PrintField(a, COMPACT), PrintField(b, COMPACT);
    hide PrintField;
    assert "{" + (s + "," + t) + "}" == "{" + s + "," + t + "}";
  }
}
