/** `json.dumps(cfg, sort_keys=True)` against what a dict means: two configs print alike exactly when
    they are equal as nested mappings, whatever order their keys were inserted in. */
module Canonical {
  import opened Common
  import opened Json
  import opened JsonText

  /** A JSON value with its dicts as mappings: Python's `==` on configs. */
  datatype Value =
    | VNull
    | VBool(b: bool)
    | VNum(n: int)
    | VStr(s: string)
    | VArr(items: seq<Value>)
    | VObj(entries: map<string, Value>)

  function Meaning(v: Json): Value
    decreases v
  {
    match v
    case Null => VNull
    case Bool(b) => VBool(b)
    case Num(n) => VNum(n)
    case Str(s) => VStr(s)
    case Arr(items) => VArr(MeaningItems(items))
    case Obj(fields) => VObj(MeaningFields(fields))
  }

  function MeaningItems(items: seq<Json>): seq<Value>
    decreases items
  {
    if items == [] then [] else [Meaning(items[0])] + MeaningItems(items[1..])
  }

  function MeaningFields(fields: seq<Field>): map<string, Value>
    decreases fields
  {
    if fields == [] then map[] else MeaningFields(fields[1..])[fields[0].key := Meaning(fields[0].val)]
  }

  /** Python's order on `str`: by code point, a proper prefix first. */
  predicate Before(s: string, t: string) {
    t != [] && (s == [] || s[0] < t[0] || (s[0] == t[0] && Before(s[1..], t[1..])))
  }

  function Insert(f: Field, fields: seq<Field>): seq<Field> {
    if fields == [] || Before(f.key, fields[0].key) then [f] + fields
    else [fields[0]] + Insert(f, fields[1..])
  }

  /** `sort_keys=True` at every nesting level. */
  function Sort(v: Json): Json
    decreases v
  {
    match v
    case Arr(items) => Arr(SortItems(items))
    case Obj(fields) => Obj(SortFields(fields))
    case _ => v
  }

  function SortItems(items: seq<Json>): seq<Json>
    decreases items
  {
    if items == [] then [] else [Sort(items[0])] + SortItems(items[1..])
  }

  function SortFields(fields: seq<Field>): seq<Field>
    decreases fields
  {
    if fields == [] then [] else Insert(Field(fields[0].key, Sort(fields[0].val)), SortFields(fields[1..]))
  }

  // ---- the key order is a strict total order --------------------------------

  lemma {:induction false} BeforeTotal(s: string, t: string)
    ensures s != t ==> Before(s, t) || Before(t, s)
    ensures !(Before(s, t) && Before(t, s)) && !Before(s, s)
  {
    if s != [] && t != [] {
      BeforeTotal(s[1..], t[1..]);
      BeforeTotal(s[1..], s[1..]);
      assert s == [s[0]] + s[1..] && t == [t[0]] + t[1..];
    } else if s != [] {
      BeforeTotal(s[1..], s[1..]);
    }
  }

  lemma {:induction false} BeforeTransitive(s: string, t: string, u: string)
    requires Before(s, t) && Before(t, u)
    ensures Before(s, u)
  {
    if s != [] && s[0] == t[0] == u[0] {
      BeforeTransitive(s[1..], t[1..], u[1..]);
    }
  }

  predicate Ascending(fields: seq<Field>) {
    forall i | 0 <= i < |fields| - 1 :: Before(fields[i].key, fields[i + 1].key)
  }

  // ---- sorting keeps what the value means ------------------------------------

  lemma {:induction false} InsertKeys(f: Field, fields: seq<Field>, k: string)
    ensures HasKey(Insert(f, fields), k) <==> k == f.key || HasKey(fields, k)
  {
    KeySplit(fields, k);
    if fields == [] || Before(f.key, fields[0].key) {
      KeySplit([f] + fields, k);
      assert ([f] + fields)[1..] == fields;
    } else {
      InsertKeys(f, fields[1..], k);
      var r := Insert(f, fields[1..]);
      KeySplit([fields[0]] + r, k);
      assert ([fields[0]] + r)[1..] == r;
    }
  }

  lemma KeySplit(fields: seq<Field>, k: string)
    ensures fields == [] ==> !HasKey(fields, k)
    ensures fields != [] ==> (HasKey(fields, k) <==> k == fields[0].key || HasKey(fields[1..], k))
  {
    if fields != [] {
      if HasKey(fields[1..], k) {
        var i :| 0 <= i < |fields[1..]| && fields[1..][i].key == k;
        assert fields[i + 1].key == k;
      }
      if HasKey(fields, k) && k != fields[0].key {
        var i :| 0 <= i < |fields| && fields[i].key == k;
        assert fields[1..][i - 1].key == k;
      }
    }
  }

  lemma {:induction false} InsertMeaning(f: Field, fields: seq<Field>)
    requires !HasKey(fields, f.key) && WfFields(fields) && Wf(f.val)
    ensures MeaningFields(Insert(f, fields)) == MeaningFields(fields)[f.key := Meaning(f.val)]
    ensures WfFields(Insert(f, fields))
  {
    KeySplit(fields, f.key);
    if fields == [] || Before(f.key, fields[0].key) {
      assert ([f] + fields)[1..] == fields;
    } else {
      InsertMeaning(f, fields[1..]);
      InsertKeys(f, fields[1..], fields[0].key);
      var r := Insert(f, fields[1..]);
      assert ([fields[0]] + r)[1..] == r;
    }
  }

  /** Sorting changes neither the mapping nor the uniqueness of keys, and it does sort. */
  lemma {:induction false} SortMeaning(v: Json)
    requires Wf(v)
    ensures Meaning(Sort(v)) == Meaning(v) && Wf(Sort(v))
    decreases v, 0
  {
    match v
    case Arr(items) => SortItemsMeaning(items);
    case Obj(fields) => SortFieldsMeaning(fields);
    case _ =>
  }

  lemma {:induction false} SortItemsMeaning(items: seq<Json>)
    requires WfItems(items)
    ensures MeaningItems(SortItems(items)) == MeaningItems(items) && WfItems(SortItems(items))
    decreases items, 1
  {
    if items != [] {
      SortMeaning(items[0]);
      SortItemsMeaning(items[1..]);
      assert SortItems(items)[1..] == SortItems(items[1..]);
    }
  }

  lemma {:induction false} SortFieldsMeaning(fields: seq<Field>)
    requires WfFields(fields)
    ensures MeaningFields(SortFields(fields)) == MeaningFields(fields) && WfFields(SortFields(fields))
    ensures forall k :: HasKey(SortFields(fields), k) <==> HasKey(fields, k)
    decreases fields, 1
  {
    if fields != [] {
      SortMeaning(fields[0].val);
      SortFieldsMeaning(fields[1..]);
      var f, rest := Field(fields[0].key, Sort(fields[0].val)), SortFields(fields[1..]);
      InsertMeaning(f, rest);
      forall k ensures HasKey(SortFields(fields), k) <==> HasKey(fields, k) {
        InsertKeys(f, rest, k);
        KeySplit(fields, k);
      }
    }
  }

  lemma {:induction false} InsertAscending(f: Field, fields: seq<Field>)
    requires Ascending(fields) && !HasKey(fields, f.key)
    ensures Ascending(Insert(f, fields))
    ensures Insert(f, fields)[0] == f || (fields != [] && Insert(f, fields)[0] == fields[0])
  {
    if fields != [] && !Before(f.key, fields[0].key) {
      KeySplit(fields, f.key);
      BeforeTotal(f.key, fields[0].key);
      InsertAscending(f, fields[1..]);
      var r := Insert(f, fields[1..]);
      if |fields| > 1 { assert fields[1..][0] == fields[1]; }
      assert Ascending([fields[0]] + r);
    }
  }

  lemma {:induction false} SortFieldsAscending(fields: seq<Field>)
    requires WfFields(fields)
    ensures Ascending(SortFields(fields))
  {
    if fields != [] {
      SortFieldsAscending(fields[1..]);
      SortFieldsMeaning(fields[1..]);
      InsertAscending(Field(fields[0].key, Sort(fields[0].val)), SortFields(fields[1..]));
    }
  }

  // ---- equal mappings sort to the same value ----------------------------------

  lemma {:induction false} InsertCommutes(f: Field, g: Field, fields: seq<Field>)
    requires f.key != g.key
    ensures Insert(f, Insert(g, fields)) == Insert(g, Insert(f, fields))
  {
    BeforeTotal(f.key, g.key);
    if fields == [] {
      assert ([f] + fields)[1..] == fields && ([g] + fields)[1..] == fields;
    } else {
      var h := fields[0];
      BeforeTotal(f.key, h.key);
      BeforeTotal(g.key, h.key);
      if Before(f.key, g.key) && Before(g.key, h.key) { BeforeTransitive(f.key, g.key, h.key); }
      if Before(g.key, f.key) && Before(f.key, h.key) { BeforeTransitive(g.key, f.key, h.key); }
      if !Before(f.key, h.key) && !Before(g.key, h.key) {
        InsertCommutes(f, g, fields[1..]);
        assert ([h] + Insert(f, fields[1..]))[1..] == Insert(f, fields[1..]);
        assert ([h] + Insert(g, fields[1..]))[1..] == Insert(g, fields[1..]);
      } else {
        assert ([f] + fields)[1..] == fields && ([g] + fields)[1..] == fields;
        assert ([h] + Insert(f, fields[1..]))[1..] == Insert(f, fields[1..]);
        assert ([h] + Insert(g, fields[1..]))[1..] == Insert(g, fields[1..]);
        if Before(f.key, h.key) && !Before(g.key, h.key) && !Before(f.key, g.key) {
          BeforeTransitive(g.key, f.key, h.key);
        }
        if Before(g.key, h.key) && !Before(f.key, h.key) && !Before(g.key, f.key) {
          BeforeTransitive(f.key, g.key, h.key);
        }
      }
    }
  }

  /** `fields` without its `i`th entry. */
  function Without(fields: seq<Field>, i: nat): seq<Field>
    requires i < |fields|
  {
    fields[..i] + fields[i + 1..]
  }

  lemma WithoutStep(fields: seq<Field>, i: nat)
    requires 0 < i < |fields|
    ensures Without(fields, i) == [fields[0]] + Without(fields[1..], i - 1)
    ensures Without(fields, i)[1..] == Without(fields[1..], i - 1)
    ensures fields[1..][i - 1] == fields[i] && HasKey(fields[1..], fields[i].key)
  {
    assert fields[1..][i - 1] == fields[i];
  }

  lemma {:induction false} WithoutWf(fields: seq<Field>, i: nat)
    requires i < |fields| && WfFields(fields)
    ensures WfFields(Without(fields, i)) && !HasKey(Without(fields, i), fields[i].key)
    ensures forall k :: HasKey(Without(fields, i), k) ==> HasKey(fields, k)
    ensures Wf(fields[i].val)
  {
    if i == 0 {
      assert Without(fields, 0) == fields[1..];
      forall k | HasKey(fields[1..], k) ensures HasKey(fields, k) { KeySplit(fields, k); }
    } else {
      WithoutStep(fields, i);
      WithoutWf(fields[1..], i - 1);
      forall k ensures HasKey(Without(fields, i), k) ==> HasKey(fields, k) {
        KeySplit(Without(fields, i), k);
        KeySplit(fields, k);
      }
      KeySplit(Without(fields, i), fields[i].key);
    }
  }

  lemma {:induction false} SortPullsOut(fields: seq<Field>, i: nat)
    requires i < |fields| && WfFields(fields)
    ensures SortFields(fields) == Insert(Field(fields[i].key, Sort(fields[i].val)), SortFields(Without(fields, i)))
  {
    if i == 0 {
      assert Without(fields, 0) == fields[1..];
    } else {
      WithoutStep(fields, i);
      SortPullsOut(fields[1..], i - 1);
      hide Sort, Insert;
      var f, g := Field(fields[0].key, Sort(fields[0].val)), Field(fields[i].key, Sort(fields[i].val));
      InsertCommutes(f, g, SortFields(Without(fields[1..], i - 1)));
    }
  }

  lemma {:induction false} MeaningPullsOut(fields: seq<Field>, i: nat)
    requires i < |fields| && WfFields(fields)
    ensures MeaningFields(fields) == MeaningFields(Without(fields, i))[fields[i].key := Meaning(fields[i].val)]
    ensures fields[i].key !in MeaningFields(Without(fields, i))
  {
    WithoutWf(fields, i);
    KeysOfMeaning(Without(fields, i));
    if i == 0 {
      assert Without(fields, 0) == fields[1..];
    } else {
      WithoutStep(fields, i);
      MeaningPullsOut(fields[1..], i - 1);
    }
  }

  lemma {:induction false} KeysOfMeaning(fields: seq<Field>)
    ensures forall k :: k in MeaningFields(fields) <==> HasKey(fields, k)
  {
    if fields != [] {
      KeysOfMeaning(fields[1..]);
      forall k ensures k in MeaningFields(fields) <==> HasKey(fields, k) { KeySplit(fields, k); }
    }
  }

  lemma NonEmptyMeaning(fields: seq<Field>)
    ensures fields != [] ==> MeaningFields(fields) != map[]
  {
    assert fields != [] ==> fields[0].key in MeaningFields(fields);
  }

  lemma {:induction false} SortCanonical(v: Json, w: Json)
    requires Wf(v) && Wf(w) && Meaning(v) == Meaning(w)
    ensures Sort(v) == Sort(w)
    decreases v, 0
  {
    match v
    case Arr(items) => SortItemsCanonical(items, w.items);
    case Obj(fields) => SortFieldsCanonical(fields, w.fields);
    case _ =>
  }

  lemma {:induction false} SortItemsCanonical(a: seq<Json>, b: seq<Json>)
    requires WfItems(a) && WfItems(b) && MeaningItems(a) == MeaningItems(b)
    ensures SortItems(a) == SortItems(b)
    decreases a, 1
  {
    if a != [] {
      assert b != [];
      assert MeaningItems(a)[0] == MeaningItems(b)[0] && MeaningItems(a)[1..] == MeaningItems(b)[1..];
      assert MeaningItems(a)[1..] == MeaningItems(a[1..]) && MeaningItems(b)[1..] == MeaningItems(b[1..]);
      SortCanonical(a[0], b[0]);
      SortItemsCanonical(a[1..], b[1..]);
    }
  }

  lemma {:induction false} SortFieldsCanonical(a: seq<Field>, b: seq<Field>)
    requires WfFields(a) && WfFields(b) && MeaningFields(a) == MeaningFields(b)
    ensures SortFields(a) == SortFields(b)
    decreases a, 1
  {
    KeysOfMeaning(b);
    KeysOfMeaning(a);
    if a == [] {
      NonEmptyMeaning(b);
    } else {
      assert a[0].key in MeaningFields(b);
      var i :| 0 <= i < |b| && b[i].key == a[0].key;
      assert Without(a, 0) == a[1..];
      MeaningPullsOut(a, 0);
      MeaningPullsOut(b, i);
      MapDelete(MeaningFields(a[1..]), MeaningFields(Without(b, i)), a[0].key, Meaning(a[0].val), Meaning(b[i].val));
      WithoutWf(b, i);
      SortCanonical(a[0].val, b[i].val);
      SortFieldsCanonical(a[1..], Without(b, i));
      SortPullsOut(b, i);
    }
  }

  lemma MapDelete(m: map<string, Value>, n: map<string, Value>, k: string, v: Value, w: Value)
    requires k !in m && k !in n && m[k := v] == n[k := w]
    ensures m == n && v == w
  {
    assert m == m[k := v] - {k} && n == n[k := w] - {k};
    assert v == m[k := v][k] && w == n[k := w][k];
  }

  /** The compact sorted printer, `json.dumps(cfg, sort_keys=True, separators=(",", ":"))`. */
  function CanonicalText(v: Json): string { Print(Sort(v), COMPACT) }

  /** Sorted text says exactly what the config means: no more (insertion order is invisible at every
      level) and no less (different configs print differently). */
  lemma CanonicalExact(v: Json, w: Json, st: Style)
    requires Wf(v) && Wf(w) && Known(st)
    ensures Print(Sort(v), st) == Print(Sort(w), st) <==> Meaning(v) == Meaning(w)
  {
    SortMeaning(v);
    SortMeaning(w);
    if Meaning(v) == Meaning(w) { SortCanonical(v, w); }
    if Print(Sort(v), st) == Print(Sort(w), st) { PrintInjective(Sort(v), Sort(w), st); }
  }
}
